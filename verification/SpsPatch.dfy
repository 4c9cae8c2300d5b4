/** The H.264 SPS rewrite: src/media/avc_util.cpp:21-80; sections 7.3.2.1.1 and 9.1 of ITU-T H.264. */
module SpsPatch {
  import opened Wire
  import opened Bytes

  type Bit = x: int | 0 <= x < 2
  type Bits = seq<Bit>

  // ---- bytes and bits ----

  /** The `n` low bits of `v`, most significant first. */
  function BitsOfNumber(v: nat, n: nat): (b: Bits)
    ensures |b| == n
  {
    if n == 0 then [] else BitsOfNumber(v / 2, n - 1) + [v % 2]
  }

  function Number(b: Bits): nat {
    if b == [] then 0 else Number(b[..|b| - 1]) * 2 + b[|b| - 1]
  }

  lemma {:induction false} NumberOfBits(v: nat, n: nat)
    requires v < Pow2(n)
    ensures Number(BitsOfNumber(v, n)) == v
  {
    if n > 0 {
      NumberOfBits(v / 2, n - 1);
      assert BitsOfNumber(v, n)[..n - 1] == BitsOfNumber(v / 2, n - 1);
    }
  }

  lemma {:induction false} BitsOfNumberBack(b: Bits)
    ensures Number(b) < Pow2(|b|) && BitsOfNumber(Number(b), |b|) == b
  {
    if b != [] {
      BitsOfNumberBack(b[..|b| - 1]);
      HalfAndBit(Number(b[..|b| - 1]), b[|b| - 1]);
      assert b == b[..|b| - 1] + [b[|b| - 1]];
    }
  }

  function BitsOf(b: Bytes): (r: Bits)
    ensures |r| == 8 * |b|
  {
    if b == [] then [] else BitsOfNumber(b[0], 8) + BitsOf(b[1..])
  }

  function ZeroBits(n: nat): (z: Bits)
    ensures |z| == n && forall i :: 0 <= i < n ==> z[i] == 0
  {
    seq(n, _ => 0)
  }

  function ByteOf(b: Bits): U8
    requires |b| == 8
  {
    BitsOfNumberBack(b);
    assert Pow2(8) == 256 by { assert Pow2(4) == 16; }
    Number(b)
  }

  /** Packs bits into bytes, the last one filled up with zeros. */
  function BytesOf(b: Bits): Bytes {
    if b == [] then []
    else if |b| < 8 then [ByteOf(b + ZeroBits(8 - |b|))]
    else [ByteOf(b[..8])] + BytesOf(b[8..])
  }

  function PadTo8(n: nat): nat {
    (8 - n % 8) % 8
  }

  lemma {:induction false} BitsOfBytesOf(b: Bits)
    ensures BitsOf(BytesOf(b)) == b + ZeroBits(PadTo8(|b|))
  {
    hide BitsOfNumber, Number;
    if b == [] {
      assert ZeroBits(0) == [];
    } else if |b| < 8 {
      BitsOfShort(b);
    } else {
      BitsOfBytesOf(b[8..]);
      BitsOfOctet(b[..8], BytesOf(b[8..]));
      PadStep(|b|);
      assert b[..8] + (b[8..] + ZeroBits(PadTo8(|b|))) == b + ZeroBits(PadTo8(|b|));
    }
  }

  lemma PadStep(n: nat)
    requires n >= 8
    ensures PadTo8(n - 8) == PadTo8(n)
  {
    DivModUnique(n - 8, 8, n / 8 - 1, n % 8);
  }

  lemma BitsOfOctet(o: Bits, rest: Bytes)
    requires |o| == 8
    ensures BitsOf([ByteOf(o)] + rest) == o + BitsOf(rest)
  {
    hide BitsOfNumber, Number;
    BitsOfNumberBack(o);
    var whole := [ByteOf(o)] + rest;
    assert whole[1..] == rest;
  }

  lemma BitsOfShort(b: Bits)
    requires 0 < |b| < 8
    ensures BitsOf(BytesOf(b)) == b + ZeroBits(PadTo8(|b|))
  {
    var c := b + ZeroBits(8 - |b|);
    assert BytesOf(b) == [ByteOf(c)] + [];
    assert BitsOf([ByteOf(c)] + []) == c by {
      hide BitsOf, BytesOf, ByteOf;
      BitsOfOctet(c, []);
      assert c + BitsOf([]) == c;
    }
    DivModUnique(|b|, 8, 0, |b|);
    DivModUnique(8 - |b|, 8, 0, 8 - |b|);
  }

  lemma {:induction false} BytesOfBitsOf(b: Bytes)
    ensures BytesOf(BitsOf(b)) == b
  {
    if b != [] {
      assert Pow2(8) == 256 by { assert Pow2(4) == 16; }
      NumberOfBits(b[0], 8);
      BytesOfBitsOf(b[1..]);
      var x := BitsOf(b);
      assert x[..8] == BitsOfNumber(b[0], 8) && x[8..] == BitsOf(b[1..]);
    }
  }

  // ---- syntax elements ----

  datatype Read = Read(val: nat, pos: nat)

  /** `u(n)`. */
  function ReadU(b: Bits, pos: nat, n: nat): Option<Read> {
    if pos + n > |b| then None else Some(Read(Number(b[pos..pos + n]), pos + n))
  }

  /** Zeros from `pos` on. */
  function ZeroRun(b: Bits, pos: nat): (z: nat)
    requires pos <= |b|
    ensures pos + z <= |b| && (forall i :: pos <= i < pos + z ==> b[i] == 0) && (pos + z < |b| ==> b[pos + z] == 1)
    decreases |b| - pos
  {
    if pos == |b| || b[pos] == 1 then 0 else 1 + ZeroRun(b, pos + 1)
  }

  /** `ue(v)`: an Exp-Golomb code with at most 31 leading zeros. */
  function ReadUe(b: Bits, pos: nat): Option<Read> {
    if pos >= |b| then None
    else
      var z := ZeroRun(b, pos);
      var p := pos + z + 1;
      if z > 31 || p + z > |b| then None
      else Some(Read(Pow2(z) - 1 + Number(b[p..p + z]), p + z))
  }

  datatype Element = U(n: nat) | Ue

  function ReadElement(b: Bits, pos: nat, e: Element): (r: Option<Read>)
    requires e.U? ==> e.n > 0
    ensures r.Some? ==> pos < r.value.pos <= |b|
  {
    if e.U? then ReadU(b, pos, e.n) else ReadUe(b, pos)
  }

  /** What a read element occupies determines it. */
  lemma ReadLocal(b: Bits, c: Bits, pos: nat, e: Element)
    requires (e.U? ==> e.n > 0) && ReadElement(b, pos, e).Some?
    requires ReadElement(b, pos, e).value.pos <= |c|
    requires forall i :: pos <= i < ReadElement(b, pos, e).value.pos ==> c[i] == b[i]
    ensures ReadElement(c, pos, e) == ReadElement(b, pos, e)
  {
    var q := ReadElement(b, pos, e).value.pos;
    assert c[pos..q] == b[pos..q];
    if e.Ue? {
      var z := ZeroRun(b, pos);
      ZeroRunIs(c, pos, z);
      assert c[pos + z + 1..q] == b[pos + z + 1..q];
    }
  }

  lemma {:induction false} ZeroRunIs(c: Bits, pos: nat, z: nat)
    requires pos + z < |c| && (forall i :: pos <= i < pos + z ==> c[i] == 0) && c[pos + z] == 1
    ensures ZeroRun(c, pos) == z
    decreases z
  {
    if z > 0 {
      assert c[pos] == 0;
      ZeroRunIs(c, pos + 1, z - 1);
    }
  }

  // ---- the part of the SPS before max_num_ref_frames ----

  predicate HighProfile(p: nat) {
    p in {100, 110, 122, 244, 44, 83, 86, 118, 128, 138, 139, 134, 135}
  }

  datatype Next = Take(e: Element) | Stop | Decline

  /** The element after `n` values of the fixed part, `k` values into it. */
  function AfterChroma(v: seq<nat>, k: nat): Next
    requires k <= |v|
  {
    var n := |v|;
    if n < k + 2 then Take(Ue)
    else if v[k + 1] == 0 then (if n == k + 2 then Take(Ue) else Stop)
    else if v[k + 1] == 1 then
      if n == k + 2 then Take(U(1))
      else if n < k + 6 then Take(Ue)
      else if v[k + 5] > 255 then Decline
      else if n < k + 6 + v[k + 5] then Take(Ue) else Stop
    else Stop
  }

  /** Which element follows the values read so far; `Decline` where the rewrite gives up. */
  function NextElement(v: seq<nat>): (r: Next)
    ensures r.Take? && r.e.U? ==> r.e.n > 0
  {
    var n := |v|;
    if n < 3 then Take(U(8))
    else if n == 3 then Take(Ue)
    else if !HighProfile(v[0]) then AfterChroma(v, 4)
    else if n == 4 then Take(Ue)
    else
      var c := if v[4] == 3 then 1 else 0;
      if n < 5 + c then Take(U(1))
      else if n < 7 + c then Take(Ue)
      else if n < 9 + c then Take(U(1))
      else if v[8 + c] != 0 then Decline
      else AfterChroma(v, 9 + c)
  }

  /** How many values precede the frame number length. */
  function ChromaEnd(v: seq<nat>): nat
    requires |v| >= 5
  {
    if !HighProfile(v[0]) then 4 else if v[4] == 3 then 10 else 9
  }

  /** The first `k` of the values read make up the part before the frame number length, which is complete. */
  predicate At(v: seq<nat>, k: nat) {
    && 4 <= k <= |v|
    && (if HighProfile(v[0]) then |v| >= 9 && k == ChromaEnd(v) && v[k - 1] == 0 else k == 4)
  }

  datatype Prefix = Prefix(vals: seq<nat>, pos: nat)

  /** All values up to max_num_ref_frames, and where that element starts. */
  function ParsePrefix(b: Bits, pos: nat, v: seq<nat>): (r: Option<Prefix>)
    requires pos <= |b|
    ensures r.Some? ==> pos <= r.value.pos <= |b| && v <= r.value.vals
    decreases |b| - pos
  {
    match NextElement(v)
    case Decline => None
    case Stop => Some(Prefix(v, pos))
    case Take(e) =>
      var r := ReadElement(b, pos, e);
      if r.None? then None else ParsePrefix(b, r.value.pos, v + [r.value.val])
  }

  /** A parsed SPS: the values before and at max_num_ref_frames, and all later bits. */
  datatype Sps = Sps(vals: seq<nat>, refStart: nat, maxRef: nat, rest: Bits)

  function ParseSps(b: Bits): Option<Sps> {
    var p := ParsePrefix(b, 0, []);
    if p.None? then None
    else
      var r := ReadUe(b, p.value.pos);
      if r.None? then None else Some(Sps(p.value.vals, p.value.pos, r.value.val, b[r.value.pos..]))
  }

  const LEVEL_BITS: Bits := [0, 0, 1, 1, 1, 1, 0, 0]  // level_idc 60
  const UE_16: Bits := [0, 0, 0, 0, 1, 0, 0, 0, 1]    // ue(16)

  function SetLevel(b: Bits): (r: Bits)
    requires |b| >= 24
    ensures |r| == |b|
  {
    b[..16] + LEVEL_BITS + b[24..]
  }

  /** The rewritten bits: level 60 and at least 16 reference frames. */
  function PatchBits(b: Bits, s: Sps): Bits
    requires ParseSps(b) == Some(s)
  {
    SpsShape(b);
    var end := |b| - |s.rest|;
    SetLevel(if s.maxRef < 16 then b[..s.refStart] + UE_16 + b[end..] else b)
  }

  function Header(sps: Bytes): Option<Sps> {
    if |sps| < 4 || sps[0] % 32 != 7 then None else ParseSps(BitsOf(sps[1..]))
  }

  function Patch(sps: Bytes): Bytes {
    var h := Header(sps);
    if h.None? then sps else [sps[0]] + BytesOf(PatchBits(BitsOf(sps[1..]), h.value))
  }

  // ---- what the rewrite preserves ----

  /** The first three elements are bytes. */
  lemma PrefixOpens(b: Bits)
    requires |b| >= 24
    ensures ParsePrefix(b, 0, []) == ParsePrefix(b, 24, [Number(b[0..8]), Number(b[8..16]), Number(b[16..24])])
  {
    hide Number, AfterChroma;
    var x, y, z := Number(b[0..8]), Number(b[8..16]), Number(b[16..24]);
    assert [] + [x] == [x];
    assert ParsePrefix(b, 0, []) == ParsePrefix(b, 8, [x]);
    assert [x] + [y] == [x, y];
    assert ParsePrefix(b, 8, [x]) == ParsePrefix(b, 16, [x, y]);
    assert [x, y] + [z] == [x, y, z];
  }

  lemma PrefixLong(b: Bits)
    requires ParsePrefix(b, 0, []).Some?
    ensures |b| >= 24
  {
    hide Number, AfterChroma;
    PrefixStep(b, 0, [], U(8));
    var x := Number(b[0..8]);
    assert [] + [x] == [x];
    PrefixStep(b, 8, [x], U(8));
    assert [x] + [Number(b[8..16])] == [x, Number(b[8..16])];
    PrefixStep(b, 16, [x, Number(b[8..16])], U(8));
  }

  lemma PrefixStep(b: Bits, pos: nat, v: seq<nat>, e: Element)
    requires pos <= |b| && NextElement(v) == Take(e) && ParsePrefix(b, pos, v).Some?
    ensures ReadElement(b, pos, e).Some?
    ensures ParsePrefix(b, ReadElement(b, pos, e).value.pos, v + [ReadElement(b, pos, e).value.val])
         == ParsePrefix(b, pos, v)
  {
    hide NextElement, ReadElement;
  }

  lemma SpsShape(b: Bits)
    requires ParseSps(b).Some?
    ensures 24 <= ParseSps(b).value.refStart < |b| - |ParseSps(b).value.rest| <= |b|
    ensures |ParseSps(b).value.vals| >= 3
    ensures ParseSps(b).value.rest == b[|b| - |ParseSps(b).value.rest|..]
  {
    hide Number, NextElement;
    PrefixLong(b);
    PrefixOpens(b);
    var r := ReadElement(b, ParsePrefix(b, 0, []).value.pos, Ue);
  }

  /** The element order does not depend on the level. */
  lemma LevelIsInert(v: seq<nat>, level: nat)
    requires |v| >= 3
    ensures NextElement(v[2 := level]) == NextElement(v)
  {
  }

  /** A prefix parse reads only the bits it covers. */
  lemma {:induction false} PrefixLocal(b: Bits, c: Bits, pos: nat, v: seq<nat>, level: nat)
    requires |v| >= 3 && pos <= |b| && ParsePrefix(b, pos, v).Some?
    requires ParsePrefix(b, pos, v).value.pos <= |c|
    requires forall i :: pos <= i < ParsePrefix(b, pos, v).value.pos ==> c[i] == b[i]
    ensures ParsePrefix(c, pos, v[2 := level])
         == Some(Prefix(ParsePrefix(b, pos, v).value.vals[2 := level], ParsePrefix(b, pos, v).value.pos))
    decreases |b| - pos
  {
    hide NextElement, ReadElement;
    LevelIsInert(v, level);
    match NextElement(v)
    case Take(e) =>
      var r := ReadElement(b, pos, e).value;
      var w := v + [r.val];
      ReadLocal(b, c, pos, e);
      PrefixLocal(b, c, r.pos, w, level);
      assert v[2 := level] + [r.val] == w[2 := level];
    case Stop =>
    case Decline =>
  }

  lemma LevelValue()
    ensures Number(LEVEL_BITS) == 60
    ensures BitsOfNumber(60, 8) == LEVEL_BITS
  {
    hide Number;
    TwoZeros();
    Shorter([0, 0], 1);
    Shorter([0, 0, 1], 1);
    Shorter([0, 0, 1, 1], 1);
    Shorter([0, 0, 1, 1, 1], 1);
    Shorter([0, 0, 1, 1, 1, 1], 0);
    Shorter([0, 0, 1, 1, 1, 1, 0], 0);
    assert [0, 0] + [1] == [0, 0, 1] && [0, 0, 1] + [1] == [0, 0, 1, 1];
    assert [0, 0, 1, 1] + [1] == [0, 0, 1, 1, 1] && [0, 0, 1, 1, 1] + [1] == [0, 0, 1, 1, 1, 1];
    assert [0, 0, 1, 1, 1, 1] + [0] == [0, 0, 1, 1, 1, 1, 0] && [0, 0, 1, 1, 1, 1, 0] + [0] == LEVEL_BITS;
    BitsOfNumberBack(LEVEL_BITS);
  }

  lemma UeSuffixValue()
    ensures Number([0, 0, 0, 1]) == 1 && Pow2(4) == 16
  {
    TwoZeros();
    Shorter([0, 0], 0);
    Shorter([0, 0, 0], 1);
    assert [0, 0] + [0] == [0, 0, 0] && [0, 0, 0] + [1] == [0, 0, 0, 1];
  }

  lemma TwoZeros()
    ensures Number([0, 0]) == 0
  {
    Shorter([], 0);
    Shorter([0], 0);
    assert [] + [0] == [0] && [0] + [0] == [0, 0];
  }

  lemma Shorter(b: Bits, x: Bit)
    ensures Number(b + [x]) == 2 * Number(b) + x
  {
    var c := b + [x];
    assert c[..|c| - 1] == b;
  }

  lemma ReadUe16(c: Bits, pos: nat)
    requires pos + 9 <= |c| && c[pos..pos + 9] == UE_16
    ensures ReadUe(c, pos) == Some(Read(16, pos + 9))
  {
    forall i | 0 <= i < 9 ensures c[pos + i] == UE_16[i] {
      assert c[pos..pos + 9][i] == UE_16[i];
    }
    assert c[pos + 0] == 0 && c[pos + 1] == 0 && c[pos + 2] == 0 && c[pos + 3] == 0 && c[pos + 4] == 1;
    ZeroRunIs(c, pos, 4);
    assert c[pos + 5..pos + 9] == c[pos..pos + 9][5..9] == [0, 0, 0, 1];
    UeSuffixValue();
  }

  function AtLeast16(n: nat): nat {
    if n < 16 then 16 else n
  }

  /** Where the rewritten bits differ from the original ones. */
  lemma PatchBitsShape(b: Bits, s: Sps)
    requires ParseSps(b) == Some(s)
    ensures 24 <= s.refStart < |b| - |s.rest| <= |b| && |s.vals| >= 3
    ensures s.rest == b[|b| - |s.rest|..]
    ensures s.refStart <= |PatchBits(b, s)|
    ensures PatchBits(b, s)[..16] == b[..16] && PatchBits(b, s)[16..24] == LEVEL_BITS
    ensures PatchBits(b, s)[24..s.refStart] == b[24..s.refStart]
    ensures PatchBits(b, s)[s.refStart..]
         == if s.maxRef < 16 then UE_16 + b[|b| - |s.rest|..] else b[s.refStart..]
  {
    hide ParseSps, SetLevel;
    SpsShape(b);
    var m, end := s.refStart, |b| - |s.rest|;
    if s.maxRef < 16 {
      SplicedShape(b[..m], UE_16, b[end..]);
      SetLevelShape(b[..m] + UE_16 + b[end..], m);
      FrontOf(b, m);
    } else {
      SetLevelShape(b, m);
    }
  }

  lemma SplicedShape(front: Bits, code: Bits, back: Bits)
    requires |front| >= 24
    ensures var t := front + code + back;
      t[..16] == front[..16] && t[24..|front|] == front[24..] && t[|front|..] == code + back
  {
  }

  lemma FrontOf(b: Bits, m: nat)
    requires 24 <= m <= |b|
    ensures b[..m][..16] == b[..16] && b[..m][24..] == b[24..m]
  {
  }

  lemma SetLevelShape(t: Bits, m: nat)
    requires 24 <= m <= |t|
    ensures SetLevel(t)[..16] == t[..16] && SetLevel(t)[24..m] == t[24..m]
    ensures SetLevel(t)[16..24] == LEVEL_BITS && SetLevel(t)[m..] == t[m..]
  {
  }

  /** The rewritten header, whatever whole-byte padding follows it. */
  lemma PatchedParse(b: Bits, s: Sps, k: nat)
    requires ParseSps(b) == Some(s)
    ensures |s.vals| >= 3
    ensures ParseSps(PatchBits(b, s) + ZeroBits(k))
         == Some(Sps(s.vals[2 := 60], s.refStart, AtLeast16(s.maxRef), s.rest + ZeroBits(k)))
  {
    hide Number, NextElement, ParsePrefix, ReadUe, PatchBits;
    PatchBitsShape(b, s);
    var n := PatchBits(b, s);
    var c := n + ZeroBits(k);
    PatchedPrefix(b, s, c);
    var m := s.refStart;
    assert c[m..] == n[m..] + ZeroBits(k);
    if s.maxRef < 16 {
      assert c[m..] == UE_16 + (s.rest + ZeroBits(k));
      RefReplaced(c, m, s.rest + ZeroBits(k));
    } else {
      RefKept(b, c, m, ZeroBits(k));
    }
  }

  lemma RefReplaced(c: Bits, m: nat, rest: Bits)
    requires m <= |c| && c[m..] == UE_16 + rest
    ensures |c| == m + 9 + |rest|
    ensures ReadUe(c, m) == Some(Read(16, m + 9)) && c[m + 9..] == rest
  {
    hide ReadUe;
    assert |c[m..]| == 9 + |rest|;
    assert c[m..m + 9] == c[m..][..9] && c[m + 9..] == c[m..][9..];
    ReadUe16(c, m);
  }

  lemma RefKept(b: Bits, c: Bits, m: nat, tail: Bits)
    requires m <= |b| && ReadUe(b, m).Some? && m <= |c| && c[m..] == b[m..] + tail
    ensures ReadUe(c, m) == ReadUe(b, m)
    ensures ReadUe(b, m).value.pos <= |b| <= |c|
    ensures c[ReadUe(b, m).value.pos..] == b[ReadUe(b, m).value.pos..] + tail
  {
    hide ReadUe;
    var end := ReadElement(b, m, Ue).value.pos;
    assert |c[m..]| == |b[m..]| + |tail|;
    forall i | m <= i < |b| ensures c[i] == b[i] {
      assert c[m..][i - m] == b[m..][i - m];
    }
    ReadLocal(b, c, m, Ue);
    assert c[end..] == c[m..][end - m..];
  }

  lemma PatchedPrefix(b: Bits, s: Sps, c: Bits)
    requires ParseSps(b) == Some(s) && PatchBits(b, s) <= c
    ensures |s.vals| >= 3 && s.refStart <= |c|
    ensures ParsePrefix(c, 0, []) == Some(Prefix(s.vals[2 := 60], s.refStart))
  {
    hide Number, NextElement, ParsePrefix, ReadUe, PatchBits;
    PatchBitsShape(b, s);
    var n := PatchBits(b, s);
    SameFront(n, c, s.refStart);
    LevelReplaced(b, c, Prefix(s.vals, s.refStart));
  }

  lemma SameFront(n: Bits, c: Bits, m: nat)
    requires n <= c && 24 <= m <= |n|
    ensures c[..16] == n[..16] && c[16..24] == n[16..24] && c[24..m] == n[24..m]
  {
  }

  /** A prefix parse after the level byte has been replaced by 60. */
  lemma LevelReplaced(b: Bits, c: Bits, p: Prefix)
    requires ParsePrefix(b, 0, []) == Some(p) && 24 <= p.pos <= |b| && p.pos <= |c|
    requires c[..16] == b[..16] && c[16..24] == LEVEL_BITS && c[24..p.pos] == b[24..p.pos]
    ensures |p.vals| >= 3 && ParsePrefix(c, 0, []) == Some(Prefix(p.vals[2 := 60], p.pos))
  {
    hide Number, NextElement, ParsePrefix;
    var x, y, z := Number(b[0..8]), Number(b[8..16]), Number(b[16..24]);
    assert ParsePrefix(b, 24, [x, y, z]) == Some(p) by { PrefixOpens(b); }
    assert ParsePrefix(c, 0, []) == ParsePrefix(c, 24, [x, y, 60]) by {
      PrefixOpens(c);
      assert c[0..8] == c[..16][0..8] == b[..16][0..8] == b[0..8];
      assert c[8..16] == c[..16][8..16] == b[..16][8..16] == b[8..16];
      LevelValue();
    }
    assert [x, y, z][2 := 60] == [x, y, 60];
    forall i | 24 <= i < p.pos ensures c[i] == b[i] {
      assert c[24..p.pos][i - 24] == b[24..p.pos][i - 24];
    }
    PrefixLocal(b, c, 24, [x, y, z], 60);
  }

  lemma SetLevelIsByte(t: Bytes)
    requires |t| >= 3
    ensures SetLevel(BitsOf(t)) == BitsOf(t[2 := 60])
  {
    hide BitsOfNumber, BitsOf;
    var u := t[2 := 60];
    BitsOfThree(t);
    BitsOfThree(u);
    LevelValue();
    assert u[3..] == t[3..];
    var x, y := BitsOfNumber(t[0], 8), BitsOfNumber(t[1], 8);
    var b := x + y + BitsOfNumber(t[2], 8) + BitsOf(t[3..]);
    assert b[..16] == x + y && b[24..] == BitsOf(t[3..]);
  }

  lemma BitsOfThree(t: Bytes)
    requires |t| >= 3
    ensures BitsOf(t) == BitsOfNumber(t[0], 8) + BitsOfNumber(t[1], 8) + BitsOfNumber(t[2], 8) + BitsOf(t[3..])
  {
    hide BitsOfNumber, BitsOf;
    BitsOfFirst(t);
    BitsOfFirst(t[1..]);
    BitsOfFirst(t[2..]);
    Rejoin(BitsOfNumber(t[0], 8), BitsOfNumber(t[1], 8), BitsOfNumber(t[2], 8), BitsOf(t[3..]));
  }

  lemma BitsOfFirst(t: Bytes)
    requires t != []
    ensures BitsOf(t) == BitsOfNumber(t[0], 8) + BitsOf(t[1..])
    ensures forall k :: 1 <= k <= |t| ==> t[1..][k - 1..] == t[k..]
  {
    hide BitsOfNumber;
  }

  lemma Rejoin(a: Bits, b: Bits, c: Bits, d: Bits)
    ensures a + (b + (c + d)) == a + b + c + d
  {
  }

  lemma ThirdByte(n: Bits)
    requires |n| >= 24
    ensures |BytesOf(n)| >= 3 && BytesOf(n)[2] == Number(n[16..24])
  {
    hide Number;
    assert n[8..][8..] == n[16..] && n[16..][..8] == n[16..24];
    assert BytesOf(n[16..])[0] == Number(n[16..][..8]);
    assert BytesOf(n[8..])[1..] == BytesOf(n[16..]);
    assert BytesOf(n)[1..] == BytesOf(n[8..]);
  }

  /**
   * The rewrite touches an SPS exactly when its header parses. It then keeps every field but the level and
   * the reference count, and all later bits up to the padding of the last byte.
   */
  lemma PatchMeaning(sps: Bytes)
    ensures Header(sps).None? ==> Patch(sps) == sps
    ensures Header(sps).Some? ==>
      var s := Header(sps).value;
      && |s.vals| >= 3
      && |Patch(sps)| >= 4 && Patch(sps)[0] == sps[0]
      && exists k | 0 <= k < 8 ::
          Header(Patch(sps)) == Some(Sps(s.vals[2 := 60], s.refStart, AtLeast16(s.maxRef), s.rest + ZeroBits(k)))
    ensures Header(sps).Some? && Header(sps).value.maxRef >= 16 ==> |sps| > 3 && Patch(sps) == sps[3 := 60]
  {
    hide ParseSps;
    if Header(sps).Some? {
      var b, s := BitsOf(sps[1..]), Header(sps).value;
      SpsShape(b);
      var n := PatchBits(b, s);
      PatchedParse(b, s, PadTo8(|n|));
      BitsOfBytesOf(n);
      assert Patch(sps)[1..] == BytesOf(n);
      assert |BytesOf(n)| >= 3;
      if s.maxRef >= 16 {
        SetLevelIsByte(sps[1..]);
        BytesOfBitsOf(sps[1..][2 := 60]);
        assert [sps[0]] + sps[1..][2 := 60] == sps[3 := 60];
      }
    }
  }

  lemma PatchIdempotent(sps: Bytes)
    ensures Patch(Patch(sps)) == Patch(sps)
  {
    hide ParseSps;
    PatchMeaning(sps);
    var p := Patch(sps);
    if Header(sps).Some? {
      var b, s := BitsOf(sps[1..]), Header(sps).value;
      PatchMeaning(p);
      PatchBitsShape(b, s);
      ThirdByte(PatchBits(b, s));
      LevelValue();
      assert p[3] == p[1..][2] && p[1..] == BytesOf(PatchBits(b, s));
    }
  }

  // ---- the imperative form ----

  lemma NoBits(b: Bits)
    ensures b == [] ==> Number(b) == 0
  {
  }

  class BitCursor {
    const bits: Bits
    var pos: nat
    var bad: bool

    constructor (bits: Bits)
      ensures this.bits == bits && pos == 0 && !bad
    {
      this.bits := bits;
      pos := 0;
      bad := false;
    }

    ghost predicate Valid()
      reads this
    {
      pos <= |bits|
    }

    /** Reads `n` bits; running out of them sets `bad`, which no later read clears. */
    method U(n: nat) returns (v: nat)
      requires Valid()
      modifies this
      ensures Valid()
      ensures var r := ReadU(bits, old(pos), n); bad == (old(bad) || r.None?) && (r.Some? ==> r.value == Read(v, pos))
    {
      v := 0;
      ghost var start := pos;
      for i := 0 to n
        invariant bad == old(bad) && pos == start + i <= |bits|
        invariant v == Number(bits[start..pos])
      {
        if pos >= |bits| {
          bad := true;
          return;
        }
        assert bits[start..pos + 1][..i] == bits[start..pos];
        v := v * 2 + bits[pos];
        pos := pos + 1;
      }
    }

    /** Skips the zeros of an Exp-Golomb code; the 32nd one sets `bad`. */
    method SkipZeros() returns (z: nat)
      requires Valid()
      modifies this
      ensures Valid()
      ensures var r := ZeroRun(bits, old(pos));
        if r > 31 then bad && z > 31 else bad == old(bad) && z == r && pos == old(pos) + r
    {
      ghost var start := pos;
      z := 0;
      while pos < |bits| && bits[pos] == 0
        invariant bad == old(bad) && pos == start + z <= |bits| && z <= 31
        invariant ZeroRun(bits, start) == z + ZeroRun(bits, pos)
        decreases |bits| - pos
      {
        z := z + 1;
        pos := pos + 1;
        if z > 31 {
          bad := true;
          return;
        }
      }
    }

    method Ue() returns (v: nat)
      requires Valid()
      modifies this
      ensures Valid()
      ensures var r := ReadUe(bits, old(pos)); bad == (old(bad) || r.None?) && (r.Some? ==> r.value == Read(v, pos))
    {
      hide Number, ZeroRun, Pow2;
      var z := SkipZeros();
      if z > 31 {
        return 0;
      }
      if pos >= |bits| {
        bad := true;
        return 0;
      }
      pos := pos + 1;
      v := Pow2(z) - 1;
      if z > 0 {
        var suffix := U(z);
        v := v + suffix;
      } else {
        NoBits(bits[pos..pos]);
      }
    }

    /** The values read so far lead to the same parse as starting over. */
    ghost predicate Tracks(vals: seq<nat>)
      reads this
    {
      && Valid()
      && (bad ==> ParsePrefix(bits, 0, []) == None)
      && (!bad ==> ParsePrefix(bits, pos, vals) == ParsePrefix(bits, 0, []))
    }

    method TakeU(n: nat, ghost vals: seq<nat>) returns (v: nat, ghost now: seq<nat>)
      requires n > 0 && Tracks(vals) && (!bad ==> NextElement(vals) == Take(Element.U(n)))
      modifies this
      ensures Tracks(now) && (old(bad) ==> bad) && (!bad ==> now == vals + [v])
    {
      hide NextElement;
      v := U(n);
      now := vals + [v];
    }

    method TakeUe(ghost vals: seq<nat>) returns (v: nat, ghost now: seq<nat>)
      requires Tracks(vals) && (!bad ==> NextElement(vals) == Take(Element.Ue))
      modifies this
      ensures Tracks(now) && (old(bad) ==> bad) && (!bad ==> now == vals + [v])
    {
      hide NextElement;
      v := Ue();
      now := vals + [v];
    }

    /** The chroma part of the high profiles; stops at a scaling matrix. */
    method Chroma(ghost vals: seq<nat>) returns (ok: bool, ghost now: seq<nat>)
      requires Tracks(vals) && (!bad ==> |vals| == 4 && HighProfile(vals[0]))
      modifies this
      ensures Tracks(now)
      ensures !ok ==> ParsePrefix(bits, 0, []) == None
      ensures ok && !bad ==> At(now, |now|)
    {
      hide AfterChroma, ParsePrefix;
      var cfi, flag;
      cfi, now := TakeUe(vals);
      if cfi == 3 {
        flag, now := TakeU(1, now);
      }
      flag, now := TakeUe(now);
      flag, now := TakeUe(now);
      flag, now := TakeU(1, now);
      flag, now := TakeU(1, now);
      ok := flag == 0;
      if !ok && !bad {
        TracksDeclined(now);
      }
    }

    /** The picture order count part, `k` values in. */
    method OrderCount(ghost vals: seq<nat>, ghost k: nat) returns (ok: bool, ghost now: seq<nat>)
      requires Tracks(vals) && (!bad ==> |vals| == k >= 4 && At(vals, k))
      modifies this
      ensures Tracks(now)
      ensures !ok ==> ParsePrefix(bits, 0, []) == None
      ensures ok && !bad ==> NextElement(now) == Stop
    {
      hide ParsePrefix, ReadElement, Tracks;
      var v, poc;
      v, now := TakeUe(vals);
      poc, now := TakeUe(now);
      ok := true;
      if poc == 0 {
        v, now := TakeUe(now);
      } else if poc == 1 {
        v, now := TakeU(1, now);
        v, now := TakeUe(now);
        v, now := TakeUe(now);
        ok, now := Offsets(now, k);
      }
    }

    /** The counted list of reference frame offsets; more than 255 of them stop the walk. */
    method Offsets(ghost vals: seq<nat>, ghost k: nat) returns (ok: bool, ghost now: seq<nat>)
      requires Tracks(vals) && (!bad ==> |vals| == k + 5 && k >= 4 && vals[k + 1] == 1 && At(vals, k))
      modifies this
      ensures Tracks(now)
      ensures !ok ==> ParsePrefix(bits, 0, []) == None
      ensures ok && !bad ==> NextElement(now) == Stop
    {
      hide ParsePrefix, ReadElement, Tracks;
      var n, v;
      n, now := TakeUe(vals);
      if n > 255 {
        if !bad {
          TracksDeclined(now);
        } else {
          TracksBad(now);
        }
        return false, now;
      }
      ok := true;
      for i := 0 to n
        invariant Tracks(now)
        invariant !bad ==> |now| == k + 6 + i && k >= 4 && now[k + 1] == 1 && now[k + 5] == n && At(now, k)
      {
        v, now := TakeUe(now);
      }
    }

    lemma TracksDeclined(vals: seq<nat>)
      requires Tracks(vals) && !bad && NextElement(vals) == Decline
      ensures ParsePrefix(bits, 0, []) == None
    {
      hide NextElement;
    }

    lemma TracksBad(vals: seq<nat>)
      requires Tracks(vals) && bad
      ensures ParsePrefix(bits, 0, []) == None
    {
    }

    /** Walks the header up to max_num_ref_frames. */
    method Walk() returns (ok: bool, ghost vals: seq<nat>)
      requires pos == 0 && !bad
      modifies this
      ensures Valid()
      ensures ok && !bad ==> ParsePrefix(bits, 0, []) == Some(Prefix(vals, pos))
      ensures !ok || bad ==> ParsePrefix(bits, 0, []) == None
    {
      hide ReadElement;
      var profile, v;
      profile, vals := TakeU(8, []);
      v, vals := TakeU(8, vals);
      v, vals := TakeU(8, vals);
      v, vals := TakeUe(vals);
      ok := true;
      if HighProfile(profile) {
        ok, vals := Chroma(vals);
      }
      if ok {
        ok, vals := OrderCount(vals, |vals|);
      }
    }
  }

  /** `x >> b`. */
  function ShiftRight(x: nat, b: nat): nat {
    if b == 0 then x else ShiftRight(x, b - 1) / 2
  }

  /** `v << k`, without bound. */
  function ShiftLeft(v: nat, k: nat): nat {
    if k == 0 then v else 2 * ShiftLeft(v, k - 1)
  }

  method ByteBits(x: U8) returns (bits: Bits)
    ensures bits == BitsOfNumber(x, 8)
  {
    bits := [];
    var b: nat := 8;
    while b > 0
      invariant b <= 8 && bits == BitsOfNumber(ShiftRight(x, b), 8 - b)
    {
      b := b - 1;
      bits := bits + [ShiftRight(x, b) % 2];
    }
  }

  method UnpackBits(t: Bytes) returns (bits: Bits)
    ensures bits == BitsOf(t)
  {
    hide BitsOf, BitsOfNumber;
    bits := [];
    for i := 0 to |t|
      invariant bits + BitsOf(t[i..]) == BitsOf(t)
    {
      var x := ByteBits(t[i]);
      BitsOfFirst(t[i..]);
      assert t[i..][1..] == t[i + 1..];
      assert bits + x + BitsOf(t[i + 1..]) == bits + (x + BitsOf(t[i + 1..]));
      bits := bits + x;
    }
  }

  lemma {:induction false} NumberShifted(b: Bits, k: nat)
    ensures Number(b + ZeroBits(k)) == ShiftLeft(Number(b), k)
  {
    if k == 0 {
      assert b + ZeroBits(0) == b;
    } else {
      NumberShifted(b, k - 1);
      Shorter(b + ZeroBits(k - 1), 0);
      assert b + ZeroBits(k) == b + ZeroBits(k - 1) + [0];
    }
  }

  /** The byte that starts at bit `i`, its missing low bits zero. */
  method PackByte(b: Bits, i: nat) returns (byte: U8)
    requires i < |b|
    ensures BytesOf(b[i..]) == [byte] + BytesOf(if i + 8 <= |b| then b[i + 8..] else [])
  {
    var v: nat, j := 0, i;
    while j < i + 8 && j < |b|
      invariant i <= j <= i + 8 && j <= |b|
      invariant v == Number(b[i..j])
    {
      assert b[i..j + 1][..j - i] == b[i..j];
      v := v * 2 + b[j];
      j := j + 1;
    }
    var cnt := j - i;
    if cnt < 8 {
      NumberShifted(b[i..], 8 - cnt);
      v := ShiftLeft(v, 8 - cnt);
      assert b[i..j] == b[i..];
      assert v == ByteOf(b[i..] + ZeroBits(8 - cnt));
    } else {
      assert b[i..][..8] == b[i..j] && b[i..][8..] == b[i + 8..];
      assert v == ByteOf(b[i..][..8]);
    }
    byte := v;
  }

  method PackBits(b: Bits) returns (out: Bytes)
    ensures out == BytesOf(b)
  {
    hide BytesOf;
    out := [];
    var i: nat := 0;
    assert b[0..] == b;
    while i < |b|
      invariant out + BytesOf(if i <= |b| then b[i..] else []) == BytesOf(b)
    {
      var byte := PackByte(b, i);
      ghost var rest := BytesOf(if i + 8 <= |b| then b[i + 8..] else []);
      assert out + ([byte] + rest) == out + [byte] + rest;
      out := out + [byte];
      i := i + 8;
    }
    NothingPacked(if i <= |b| then b[i..] else []);
  }

  lemma NothingPacked(b: Bits)
    ensures b == [] ==> BytesOf(b) == []
  {
  }

  method PatchSps(sps: Bytes) returns (out: Bytes)
    ensures out == Patch(sps)
  {
    hide ParsePrefix, ReadUe, BytesOf;
    if |sps| < 4 || sps[0] % 32 != 7 {
      return sps;
    }
    var bits := UnpackBits(sps[1..]);
    var cursor := new BitCursor(bits);
    var ok, vals := cursor.Walk();
    if !ok {
      return sps;
    }
    var start := cursor.pos;
    var maxRef := cursor.Ue();
    if cursor.bad {
      return sps;
    }
    var end := cursor.pos;
    SpsShape(bits);
    var patched := bits;
    if maxRef < 16 {
      patched := bits[..start] + UE_16 + bits[end..];
    }
    patched := patched[..16] + LEVEL_BITS + patched[24..];
    var packed := PackBits(patched);
    out := [sps[0]] + packed;
  }
}
