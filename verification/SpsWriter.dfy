/**
 SPS headers as section 7.3.2.1.1 of ITU-T H.264 writes them, field by field, and what the rewrite of
 src/media/avc_util.cpp:21-80 makes of every one of them.
 */
module SpsWriter {
  import opened Wire
  import opened Bytes
  import opened SpsPatch

  // ---- fields and their codes ----

  /** `u(n)`, `ue(v)` and `se(v)`. */
  datatype Field = Fixed(n: nat, val: nat) | Golomb(code: nat) | Signed(v: int)

  /** Binary digits without leading zeros. */
  function Binary(n: nat): Bits {
    if n == 0 then [] else Binary(n / 2) + [n % 2]
  }

  /** Exp-Golomb, section 9.1: as many zeros as digits follow the first one, then the digits of the value plus one. */
  function GolombBits(v: nat): Bits {
    var digits := Binary(v + 1);
    if digits == [] then [] else ZeroBits(|digits| - 1) + digits
  }

  /** The code number of a signed value, section 9.1.1. */
  function SignedCode(v: int): nat {
    if v > 0 then 2 * v - 1 else -2 * v
  }

  const MAX_CODE := 0xFFFF_FFFE

  predicate Writable(f: Field) {
    match f
    case Fixed(n, val) => 0 < n && val < Pow2(n)
    case Golomb(code) => code <= MAX_CODE
    case Signed(v) => SignedCode(v) <= MAX_CODE
  }

  function Encode(f: Field): Bits {
    match f
    case Fixed(n, val) => BitsOfNumber(val, n)
    case Golomb(code) => GolombBits(code)
    case Signed(v) => GolombBits(SignedCode(v))
  }

  function EncodeAll(fs: seq<Field>): Bits {
    if fs == [] then [] else Encode(fs[0]) + EncodeAll(fs[1..])
  }

  // ---- the header ----

  /** The part of high profiles; the plane flag is written for format 3 only. */
  datatype Chroma = Chroma(
    format: nat, separatePlanes: bool, lumaDepth: nat, chromaDepth: nat, bypass: bool, scalingMatrix: bool)

  /** Picture order count types 0, 1 and any other. */
  datatype OrderCount =
    | LsbLength(log2: nat)
    | Cycle(alwaysZero: bool, nonRef: int, topToBottom: int, offsets: seq<int>)
    | OtherType(kind: nat)

  datatype SpsHeader = SpsHeader(
    profile: nat, constraints: nat, level: nat, id: nat, chroma: Chroma, log2FrameNum: nat, order: OrderCount)

  function Flag(b: bool): Field {
    Fixed(1, if b then 1 else 0)
  }

  predicate HasChroma(profile: nat) {
    || profile == 100 || profile == 110 || profile == 122 || profile == 244 || profile == 44 || profile == 83
    || profile == 86 || profile == 118 || profile == 128 || profile == 138 || profile == 139 || profile == 134
    || profile == 135
  }

  function LeadFields(h: SpsHeader): seq<Field> {
    [Fixed(8, h.profile), Fixed(8, h.constraints), Fixed(8, h.level), Golomb(h.id)]
  }

  function ChromaFields(c: Chroma): seq<Field> {
    [Golomb(c.format)] + (if c.format == 3 then [Flag(c.separatePlanes)] else [])
    + [Golomb(c.lumaDepth), Golomb(c.chromaDepth), Flag(c.bypass), Flag(c.scalingMatrix)]
  }

  function SignedFields(vs: seq<int>): seq<Field> {
    seq(|vs|, i requires 0 <= i < |vs| => Signed(vs[i]))
  }

  /** Up to and with the number of offsets. */
  function CycleFields(o: OrderCount): seq<Field>
    requires o.Cycle?
  {
    [Golomb(1), Flag(o.alwaysZero), Signed(o.nonRef), Signed(o.topToBottom), Golomb(|o.offsets|)]
  }

  function OrderFields(o: OrderCount): seq<Field> {
    match o
    case LsbLength(log2) => [Golomb(0), Golomb(log2)]
    case Cycle(_, _, _, offsets) => CycleFields(o) + SignedFields(offsets)
    case OtherType(kind) => [Golomb(kind)]
  }

  function FrontFields(h: SpsHeader): seq<Field> {
    LeadFields(h) + if HasChroma(h.profile) then ChromaFields(h.chroma) else []
  }

  /** Everything before max_num_ref_frames. */
  function HeaderFields(h: SpsHeader): seq<Field> {
    FrontFields(h) + [Golomb(h.log2FrameNum)] + OrderFields(h.order)
  }

  ghost predicate AllWritable(fs: seq<Field>) {
    forall i :: 0 <= i < |fs| ==> Writable(fs[i])
  }

  /** Every field fits its code, and an order count type of its own is neither 0 nor 1. */
  ghost predicate Encodable(h: SpsHeader) {
    AllWritable(HeaderFields(h)) && (h.order.OtherType? ==> h.order.kind > 1)
  }

  /** The bits of an SPS: header, max_num_ref_frames and everything behind it. */
  function WriteBits(h: SpsHeader, refs: nat, rest: Bits): Bits {
    EncodeAll(HeaderFields(h)) + (GolombBits(refs) + rest)
  }

  /** The NAL unit: its header byte, and the bits filled up to whole bytes. */
  function Write(nal: U8, h: SpsHeader, refs: nat, rest: Bits): Bytes {
    [nal] + BytesOf(WriteBits(h, refs, rest))
  }

  // ---- each field is read back ----

  lemma {:induction false} BinaryForm(n: nat)
    requires n > 0
    ensures var d := Binary(n);
      && d != [] && d[0] == 1 && Number(d[1..]) + Pow2(|d| - 1) == n
  {
    if n > 1 {
      var init, d := Binary(n / 2), Binary(n);
      BinaryForm(n / 2);
      assert d[1..] == init[1..] + [n % 2];
      Shorter(init[1..], n % 2);
      assert Pow2(|d| - 1) == 2 * Pow2(|init| - 1);
    } else {
      assert Binary(1) == Binary(0) + [1] == [1];
      assert Number([]) == 0 && Pow2(0) == 1;
      assert [1][1..] == [];
    }
  }

  lemma Pow2Grows(a: nat, b: nat)
    requires a <= b
    ensures Pow2(a) <= Pow2(b)
  {
  }

  lemma Pow2Of32()
    ensures Pow2(32) == 0x1_0000_0000
  {
    assert Pow2(8) == 256 by { assert Pow2(4) == 16; }
    assert Pow2(12) == 4096 && Pow2(16) == 0x1_0000 && Pow2(20) == 0x10_0000 && Pow2(24) == 0x100_0000;
    assert Pow2(28) == 0x1000_0000;
  }

  /** Where the zeros, the first digit and the others lie. */
  lemma GolombShape(front: Bits, z: nat, d: Bits, back: Bits)
    requires |d| == z + 1 && d[0] == 1
    ensures var b, pos := front + (ZeroBits(z) + d) + back, |front|;
      && (forall i :: pos <= i < pos + z ==> b[i] == 0) && b[pos + z] == 1
      && b[pos + z + 1..pos + z + 1 + z] == d[1..]
  {
    var code := ZeroBits(z) + d;
    var b, pos := front + code + back, |front|;
    assert b[pos..pos + |code|] == code;
    forall i | pos <= i < pos + z ensures b[i] == 0 {
      assert b[i] == code[i - pos];
    }
    assert b[pos + z] == code[z];
  }

  lemma FewZeros(v: nat)
    requires v <= MAX_CODE
    ensures 1 <= |Binary(v + 1)| <= 32
  {
    hide Binary, Pow2, Number;
    BinaryForm(v + 1);
    if |Binary(v + 1)| > 32 {
      Pow2Of32();
      Pow2Grows(32, |Binary(v + 1)| - 1);
    }
  }

  lemma GolombRead(front: Bits, v: nat, back: Bits)
    requires v <= MAX_CODE
    ensures var b := front + GolombBits(v) + back;
      ReadUe(b, |front|) == Some(Read(v, |front| + |GolombBits(v)|)) && GolombBits(v) != []
  {
    hide Number, Binary, Pow2;
    var d := Binary(v + 1);
    BinaryForm(v + 1);
    FewZeros(v);
    GolombShape(front, |d| - 1, d, back);
    ZeroRunIs(front + GolombBits(v) + back, |front|, |d| - 1);
  }

  function ElementOf(f: Field): Element {
    if f.Fixed? then U(f.n) else Ue
  }

  function ValueOf(f: Field): nat {
    match f
    case Fixed(_, val) => val
    case Golomb(code) => code
    case Signed(v) => SignedCode(v)
  }

  lemma FieldRead(front: Bits, f: Field, back: Bits)
    requires Writable(f)
    ensures ReadElement(front + Encode(f) + back, |front|, ElementOf(f))
         == Some(Read(ValueOf(f), |front| + |Encode(f)|))
  {
    hide GolombBits, ReadUe, BitsOfNumber, Number;
    if f.Fixed? {
      var b := front + Encode(f) + back;
      assert b[|front|..|front| + f.n] == Encode(f);
      NumberOfBits(f.val, f.n);
    } else {
      GolombRead(front, ValueOf(f), back);
    }
  }

  function Values(fs: seq<Field>): (v: seq<nat>)
    ensures |v| == |fs| && forall i :: 0 <= i < |fs| ==> v[i] == ValueOf(fs[i])
  {
    seq(|fs|, i requires 0 <= i < |fs| => ValueOf(fs[i]))
  }

  /** The reader expects just this field after the fields before it. */
  ghost predicate Expected(fs: seq<Field>, i: nat)
    requires i < |fs|
  {
    NextElement(Values(fs[..i])) == Take(ElementOf(fs[i]))
  }

  lemma {:induction false} EncodeSplit(a: seq<Field>, b: seq<Field>)
    ensures EncodeAll(a + b) == EncodeAll(a) + EncodeAll(b)
  {
    hide Encode;
    if a == [] {
      assert a + b == b;
    } else {
      assert (a + b)[1..] == a[1..] + b;
      EncodeSplit(a[1..], b);
    }
  }

  lemma EncodeOne(f: Field)
    ensures EncodeAll([f]) == Encode(f)
  {
    assert [f][1..] == [];
  }

  /** Written fields that the reader expects are read one by one. */
  lemma {:induction false} FieldsRead(fs: seq<Field>, n: nat, back: Bits)
    requires n <= |fs| && AllWritable(fs) && forall i :: 0 <= i < n ==> Expected(fs, i)
    ensures var b := EncodeAll(fs[..n]) + back;
      ParsePrefix(b, 0, []) == ParsePrefix(b, |EncodeAll(fs[..n])|, Values(fs[..n]))
  {
    hide Encode, NextElement, ReadElement, Writable, ElementOf, ValueOf;
    if n == 0 {
      assert fs[..0] == [] && Values([]) == [];
    } else {
      var init, f := fs[..n - 1], fs[n - 1];
      assert fs[..n] == init + [f];
      EncodeSplit(init, [f]);
      EncodeOne(f);
      var more := Encode(f) + back;
      FieldsRead(fs, n - 1, more);
      var b := EncodeAll(fs[..n]) + back;
      assert b == EncodeAll(init) + more == EncodeAll(init) + Encode(f) + back;
      FieldRead(EncodeAll(init), f, back);
      assert Expected(fs, n - 1) && Writable(f);
      assert Values(fs[..n]) == Values(init) + [ValueOf(f)];
    }
  }

  // ---- the reader expects the fields of every header ----

  lemma SameProfiles(p: nat)
    ensures HighProfile(p) <==> HasChroma(p)
  {
  }

  lemma FrontExpected(h: SpsHeader, more: seq<Field>, i: nat)
    requires i < |FrontFields(h)|
    ensures Expected(FrontFields(h) + more, i)
  {
    hide HighProfile, HasChroma, AfterChroma;
    SameProfiles(h.profile);
    var fs := FrontFields(h) + more;
    var v := Values(fs[..i]);
    assert forall j :: 0 <= j < i ==> v[j] == ValueOf(FrontFields(h)[j]);
  }

  /** The fields from the frame number length on, `k` fields into the header. */
  function BackFields(h: SpsHeader): seq<Field> {
    [Golomb(h.log2FrameNum)] + OrderFields(h.order)
  }

  /** Behind a front without a scaling matrix the reader goes on with the order count part. */
  lemma BackReached(h: SpsHeader, v: seq<nat>)
    requires HasChroma(h.profile) ==> !h.chroma.scalingMatrix
    requires Values(FrontFields(h)) <= v
    ensures NextElement(v) == AfterChroma(v, |FrontFields(h)|)
  {
    hide HighProfile, HasChroma, AfterChroma;
    SameProfiles(h.profile);
    var front := Values(FrontFields(h));
    assert forall j :: 0 <= j < |front| ==> v[j] == ValueOf(FrontFields(h)[j]);
  }

  lemma ScalingDeclines(h: SpsHeader)
    requires HasChroma(h.profile) && h.chroma.scalingMatrix
    ensures NextElement(Values(FrontFields(h))) == Decline
  {
    hide HighProfile, HasChroma, AfterChroma;
    SameProfiles(h.profile);
  }

  /** The order count part of a header, field by field. */
  lemma BackStep(back: seq<Field>, front: seq<nat>, o: OrderCount, i: nat)
    requires 0 < |back| && i < |back| && back[0].Golomb? && back[1..] <= OrderFields(o)
    requires o.OtherType? ==> o.kind > 1
    requires o.Cycle? && i >= 6 ==> |o.offsets| <= 255
    ensures AfterChroma(front + Values(back[..i]), |front|) == Take(ElementOf(back[i]))
  {
    var v := front + Values(back[..i]);
    assert forall j :: 0 <= j < i ==> v[|front| + j] == ValueOf(back[j]);
    assert forall j :: 0 < j < |back| ==> back[j] == back[1..][j - 1] == OrderFields(o)[j - 1];
  }

  lemma BackStops(h: SpsHeader, front: seq<nat>)
    requires (h.order.OtherType? ==> h.order.kind > 1) && (h.order.Cycle? ==> |h.order.offsets| <= 255)
    ensures AfterChroma(front + Values(BackFields(h)), |front|) == Stop
  {
    var v, back := front + Values(BackFields(h)), BackFields(h);
    assert forall j :: 0 <= j < |back| ==> v[|front| + j] == ValueOf(back[j]);
  }

  lemma OffsetsDecline(o: OrderCount, log2: nat, front: seq<nat>)
    requires o.Cycle? && |o.offsets| > 255
    ensures AfterChroma(front + Values([Golomb(log2)] + CycleFields(o)), |front|) == Decline
  {
    var back := [Golomb(log2)] + CycleFields(o);
    var v := front + Values(back);
    assert forall j :: 0 <= j < |back| ==> v[|front| + j] == ValueOf(back[j]);
  }

  lemma ValuesConcat(a: seq<Field>, b: seq<Field>)
    ensures Values(a + b) == Values(a) + Values(b)
  {
  }

  /** Every field of `fs` is expected, where `fs` is a front and a beginning of the back part. */
  lemma BackExpected(h: SpsHeader, back: seq<Field>, i: nat)
    requires HasChroma(h.profile) ==> !h.chroma.scalingMatrix
    requires h.order.OtherType? ==> h.order.kind > 1
    requires 0 < |back| && back <= BackFields(h) && (h.order.Cycle? && |back| > 6 ==> |h.order.offsets| <= 255)
    requires i < |FrontFields(h) + back|
    ensures Expected(FrontFields(h) + back, i)
  {
    hide NextElement, AfterChroma, FrontFields, OrderFields;
    var front := FrontFields(h);
    if i < |front| {
      FrontExpected(h, back, i);
    } else {
      var d := i - |front|;
      assert (front + back)[..i] == front + back[..d];
      ValuesConcat(front, back[..d]);
      BackReached(h, Values((front + back)[..i]));
      assert back[1..] <= BackFields(h)[1..] == OrderFields(h.order);
      BackStep(back, Values(front), h.order, d);
    }
  }

  // ---- what the rewrite makes of written headers ----

  ghost predicate Plain(h: SpsHeader) {
    && Encodable(h) && (HasChroma(h.profile) ==> !h.chroma.scalingMatrix)
    && (h.order.Cycle? ==> |h.order.offsets| <= 255)
  }

  lemma HeaderRead(h: SpsHeader, back: Bits)
    requires Plain(h)
    ensures var b := EncodeAll(HeaderFields(h)) + back;
      ParsePrefix(b, 0, []) == Some(Prefix(Values(HeaderFields(h)), |EncodeAll(HeaderFields(h))|))
  {
    hide NextElement, AfterChroma, FrontFields, OrderFields, EncodeAll, Writable;
    var front, tail, fs := FrontFields(h), BackFields(h), HeaderFields(h);
    assert fs == front + tail;
    forall i | 0 <= i < |fs| ensures Expected(fs, i) {
      BackExpected(h, tail, i);
    }
    FieldsRead(fs, |fs|, back);
    assert fs[..|fs|] == fs;
    ValuesConcat(front, tail);
    BackReached(h, Values(fs));
    BackStops(h, Values(front));
  }

  lemma WrittenParses(h: SpsHeader, refs: nat, rest: Bits)
    requires Plain(h) && refs <= MAX_CODE
    ensures ParseSps(WriteBits(h, refs, rest))
         == Some(Sps(Values(HeaderFields(h)), |EncodeAll(HeaderFields(h))|, refs, rest))
  {
    hide ParsePrefix, ReadUe, EncodeAll, HeaderFields, GolombBits, Plain;
    var front, b := EncodeAll(HeaderFields(h)), WriteBits(h, refs, rest);
    HeaderRead(h, GolombBits(refs) + rest);
    assert b == front + GolombBits(refs) + rest;
    GolombRead(front, refs, rest);
    assert b[|front| + |GolombBits(refs)|..] == rest;
  }

  lemma GolombSixteen()
    ensures GolombBits(16) == UE_16
  {
    hide ReadUe, GolombBits;
    assert UE_16[0..9] == UE_16;
    ReadUe16(UE_16, 0);
    GolombBack(UE_16, 0);
  }

  /** The bits of a header are three bytes and the rest. */
  lemma LeadBits(h: SpsHeader)
    requires Encodable(h)
    ensures |HeaderFields(h)| >= 3
    ensures EncodeAll(HeaderFields(h)) ==
            BitsOfNumber(h.profile, 8) + BitsOfNumber(h.constraints, 8) + BitsOfNumber(h.level, 8)
            + EncodeAll(HeaderFields(h)[3..])
  {
    hide BitsOfNumber, ChromaFields, OrderFields, GolombBits;
    var fs := HeaderFields(h);
    assert fs[0] == Fixed(8, h.profile) && fs[1] == Fixed(8, h.constraints) && fs[2] == Fixed(8, h.level);
    assert fs[1..][1..] == fs[2..] && fs[2..][1..] == fs[3..];
    Rejoin(BitsOfNumber(h.profile, 8), BitsOfNumber(h.constraints, 8), BitsOfNumber(h.level, 8), EncodeAll(fs[3..]));
    assert EncodeAll(fs) == Encode(fs[0]) + EncodeAll(fs[1..]);
    assert EncodeAll(fs[1..]) == Encode(fs[1]) + EncodeAll(fs[2..]);
    assert EncodeAll(fs[2..]) == Encode(fs[2]) + EncodeAll(fs[3..]);
  }

  lemma LevelField(h: SpsHeader)
    ensures HeaderFields(h.(level := 60))[3..] == HeaderFields(h)[3..]
  {
    hide ChromaFields, OrderFields, HasChroma;
  }

  lemma LevelWritten(h: SpsHeader, back: Bits)
    requires Encodable(h)
    ensures var b := EncodeAll(HeaderFields(h)) + back;
      |b| >= 24 && SetLevel(b) == EncodeAll(HeaderFields(h.(level := 60))) + back
  {
    hide BitsOfNumber, HeaderFields, EncodeAll, Writable;
    var low := h.(level := 60);
    var x, y, z := BitsOfNumber(h.profile, 8), BitsOfNumber(h.constraints, 8), BitsOfNumber(h.level, 8);
    LeadBits(h);
    var rest := EncodeAll(HeaderFields(h)[3..]);
    LowerLevel(h);
    LeadBits(low);
    LevelField(h);
    LevelValue();
    var b := x + y + z + rest + back;
    assert b[..16] == x + y && b[24..] == rest + back;
    assert SetLevel(b) == x + y + LEVEL_BITS + (rest + back);
    assert x + y + LEVEL_BITS + (rest + back) == x + y + LEVEL_BITS + rest + back;
  }

  lemma LowerLevel(h: SpsHeader)
    requires Encodable(h)
    ensures Encodable(h.(level := 60)) && |EncodeAll(HeaderFields(h.(level := 60)))| == |EncodeAll(HeaderFields(h))|
  {
    hide ChromaFields, OrderFields, HasChroma, BitsOfNumber, GolombBits;
    var low := h.(level := 60);
    var fs, gs := HeaderFields(h), HeaderFields(low);
    assert Pow2(8) == 256 by { assert Pow2(4) == 16; }
    LevelField(h);
    assert |gs| == |fs| && gs[2] == Fixed(8, 60);
    forall i | 0 <= i < |gs| ensures Writable(gs[i]) {
      assert i >= 3 ==> gs[i] == gs[3..][i - 3] == fs[3..][i - 3] == fs[i];
      assert i < 2 ==> gs[i] == fs[i];
    }
    LeadBits(h);
    LeadBits(low);
  }

  /** On bits: the level becomes 60, fewer than 16 reference frames become 16, and nothing else changes. */
  lemma PatchedBits(h: SpsHeader, refs: nat, rest: Bits)
    requires Plain(h) && refs <= MAX_CODE
    ensures ParseSps(WriteBits(h, refs, rest)).Some?
    ensures var b := WriteBits(h, refs, rest);
      PatchBits(b, ParseSps(b).value) == WriteBits(h.(level := 60), if refs < 16 then 16 else refs, rest)
  {
    hide ParseSps, EncodeAll, HeaderFields, GolombBits, SetLevel, AllWritable;
    var b, front := WriteBits(h, refs, rest), EncodeAll(HeaderFields(h));
    WrittenParses(h, refs, rest);
    SpsShape(b);
    assert b[..|front|] == front && b[|b| - |rest|..] == rest;
    if refs < 16 {
      GolombSixteen();
      LevelWritten(h, UE_16 + rest);
      assert front + UE_16 + rest == front + (UE_16 + rest);
    } else {
      LevelWritten(h, GolombBits(refs) + rest);
    }
  }

  lemma PaddedWrite(h: SpsHeader, refs: nat, rest: Bits)
    ensures var b := WriteBits(h, refs, rest);
      BitsOf(BytesOf(b)) == WriteBits(h, refs, rest + ZeroBits(PadTo8(|b|)))
  {
    hide EncodeAll, HeaderFields, GolombBits, BytesOf, BitsOf;
    var b := WriteBits(h, refs, rest);
    BitsOfBytesOf(b);
    var z := ZeroBits(PadTo8(|b|));
    assert b + z == EncodeAll(HeaderFields(h)) + (GolombBits(refs) + (rest + z));
  }

  lemma WrittenLong(h: SpsHeader, refs: nat, rest: Bits)
    requires Encodable(h)
    ensures |BytesOf(WriteBits(h, refs, rest))| >= 3
  {
    hide EncodeAll, HeaderFields, GolombBits, Number, Writable;
    LevelWritten(h, GolombBits(refs) + rest);
    ThirdByte(WriteBits(h, refs, rest));
  }

  /**
   Every SPS header that can be written, whatever follows it. The rewrite gives the SPS written with level 60 and
   at least 16 reference frames, every other field and all later bits as they were, up to the zeros that filled
   the last byte. A header with a scaling matrix or with more than 255 offsets is excluded here and covered below.
   */
  lemma PatchWritten(nal: U8, h: SpsHeader, refs: nat, rest: Bits)
    requires nal % 32 == 7 && Plain(h) && refs <= MAX_CODE
    ensures var padded := rest + ZeroBits(PadTo8(|WriteBits(h, refs, rest)|));
      Patch(Write(nal, h, refs, rest)) == Write(nal, h.(level := 60), if refs < 16 then 16 else refs, padded)
  {
    hide ParseSps, PatchBits, WriteBits, BytesOf, BitsOf, AllWritable, HeaderFields;
    var sps, padded := Write(nal, h, refs, rest), rest + ZeroBits(PadTo8(|WriteBits(h, refs, rest)|));
    WrittenLong(h, refs, rest);
    assert sps[1..] == BytesOf(WriteBits(h, refs, rest));
    PaddedWrite(h, refs, rest);
    PatchedBits(h, refs, padded);
  }

  /** Fields that end where the reader gives up. */
  lemma DeclinedFields(nal: U8, fs: seq<Field>, rest: Bits)
    requires AllWritable(fs) && (forall i :: 0 <= i < |fs| ==> Expected(fs, i)) && NextElement(Values(fs)) == Decline
    ensures var sps := [nal] + BytesOf(EncodeAll(fs) + rest); Patch(sps) == sps
  {
    hide NextElement, EncodeAll, BytesOf, BitsOf, Values, Writable;
    var b := EncodeAll(fs) + rest;
    var sps, z := [nal] + BytesOf(b), ZeroBits(PadTo8(|b|));
    assert sps[1..] == BytesOf(b);
    BitsOfBytesOf(b);
    assert b + z == EncodeAll(fs) + (rest + z);
    assert fs[..|fs|] == fs;
    FieldsRead(fs, |fs|, rest + z);
  }

  /** A header with a scaling matrix comes back unchanged, whatever follows it. */
  lemma ScalingUnchanged(nal: U8, h: SpsHeader, rest: Bits)
    requires AllWritable(FrontFields(h)) && HasChroma(h.profile) && h.chroma.scalingMatrix
    ensures var sps := [nal] + BytesOf(EncodeAll(FrontFields(h)) + rest); Patch(sps) == sps
  {
    hide NextElement, EncodeAll, BytesOf, FrontFields, Patch, Writable, HasChroma;
    var fs := FrontFields(h);
    forall i | 0 <= i < |fs| ensures Expected(fs, i) {
      FrontExpected(h, [], i);
      assert fs + [] == fs;
    }
    ScalingDeclines(h);
    DeclinedFields(nal, fs, rest);
  }

  /** So does one with more than 255 offsets. */
  lemma OffsetsUnchanged(nal: U8, h: SpsHeader, rest: Bits)
    requires h.order.Cycle? && AllWritable(FrontFields(h) + [Golomb(h.log2FrameNum)] + CycleFields(h.order))
    requires (HasChroma(h.profile) ==> !h.chroma.scalingMatrix) && |h.order.offsets| > 255
    ensures
      var sps := [nal] + BytesOf(EncodeAll(FrontFields(h) + [Golomb(h.log2FrameNum)] + CycleFields(h.order)) + rest);
      Patch(sps) == sps
  {
    hide NextElement, AfterChroma, EncodeAll, BytesOf, FrontFields, Patch, Writable, HasChroma;
    var front, back := FrontFields(h), [Golomb(h.log2FrameNum)] + CycleFields(h.order);
    var fs := front + [Golomb(h.log2FrameNum)] + CycleFields(h.order);
    assert fs == front + back;
    assert back <= BackFields(h);
    forall i | 0 <= i < |fs| ensures Expected(fs, i) {
      BackExpected(h, back, i);
    }
    ValuesConcat(front, back);
    BackReached(h, Values(fs));
    OffsetsDecline(h.order, h.log2FrameNum, Values(front));
    DeclinedFields(nal, fs, rest);
  }

  // ---- only written headers are rewritten ----

  lemma {:induction false} DigitsBack(t: Bits)
    ensures Binary(Pow2(|t|) + Number(t)) == [1] + t
  {
    if t == [] {
      assert Pow2(0) + Number([]) == 1 && Binary(1) == Binary(0) + [1];
    } else {
      var init, x := t[..|t| - 1], t[|t| - 1];
      DigitsBack(init);
      HalfAndBit(Pow2(|init|) + Number(init), x);
      assert Pow2(|t|) + Number(t) == 2 * (Pow2(|init|) + Number(init)) + x;
      assert t == init + [x];
    }
  }

  /** The value behind `z` zeros fits 32 bits. */
  lemma CodeFits(z: nat, t: Bits)
    requires z <= 31 && |t| == z
    ensures Pow2(z) - 1 + Number(t) <= MAX_CODE
  {
    hide Number, Pow2;
    BitsOfNumberBack(t);
    Pow2Of32();
    Pow2Grows(z + 1, 32);
    DoublePow2(z);
  }

  lemma CodeSlice(b: Bits, pos: nat, z: nat, end: nat)
    requires end == pos + z + 1 + z <= |b| && (forall i :: pos <= i < pos + z ==> b[i] == 0) && b[pos + z] == 1
    ensures b[pos..end] == ZeroBits(z) + ([1] + b[pos + z + 1..end])
  {
    assert b[pos..end] == b[pos..pos + z] + [b[pos + z]] + b[pos + z + 1..end];
    assert b[pos..pos + z] == ZeroBits(z);
  }

  /** What is read as an Exp-Golomb code is the code of its value. */
  lemma GolombBack(b: Bits, pos: nat)
    requires ReadUe(b, pos).Some?
    ensures var r := ReadUe(b, pos).value;
      r.val <= MAX_CODE && pos <= r.pos <= |b| && b[pos..r.pos] == GolombBits(r.val)
  {
    hide Number, Binary, Pow2;
    var r, z := ReadUe(b, pos).value, ZeroRun(b, pos);
    var t := b[pos + z + 1..r.pos];
    CodeFits(z, t);
    DigitsBack(t);
    CodeSlice(b, pos, z, r.pos);
  }

  lemma DoublePow2(z: nat)
    ensures Pow2(z + 1) == 2 * Pow2(z)
  {
  }

  lemma FieldBack(b: Bits, pos: nat, f: Field)
    requires (f.Fixed? ==> f.n > 0) && ReadElement(b, pos, ElementOf(f)).Some?
    requires ReadElement(b, pos, ElementOf(f)).value.val == ValueOf(f)
    ensures Writable(f) && b[pos..ReadElement(b, pos, ElementOf(f)).value.pos] == Encode(f)
  {
    hide Number, GolombBits, ReadUe, BitsOfNumber;
    if f.Fixed? {
      BitsOfNumberBack(b[pos..pos + f.n]);
    } else {
      GolombBack(b, pos);
    }
  }

  /** The values of a parsed header: each was asked for, flags are bits, and nothing more is asked for. */
  ghost predicate Asked(v: seq<nat>, i: nat)
    requires i < |v|
  {
    var n := NextElement(v[..i]);
    n.Take? && (n.e.U? ==> v[i] < Pow2(n.e.n))
  }

  lemma {:induction false} ParsedAsked(b: Bits, pos: nat, v: seq<nat>)
    requires pos <= |b| && ParsePrefix(b, pos, v).Some?
    ensures var w := ParsePrefix(b, pos, v).value.vals;
      NextElement(w) == Stop && forall i :: |v| <= i < |w| ==> Asked(w, i)
    decreases |b| - pos
  {
    hide NextElement, Number;
    var n := NextElement(v);
    if n.Take? {
      var r := ReadElement(b, pos, n.e).value;
      if n.e.U? {
        BitsOfNumberBack(b[pos..pos + n.e.n]);
      }
      var more := v + [r.val];
      ParsedAsked(b, r.pos, more);
      var w := ParsePrefix(b, r.pos, more).value.vals;
      assert w[..|v|] == v && w[|v|] == more[|v|];
    }
  }

  function SignedOf(code: nat): int {
    if code % 2 == 1 then (code + 1) / 2 else -(code / 2)
  }

  lemma SignedBack(code: nat)
    ensures SignedCode(SignedOf(code)) == code
  {
  }

  /** The order count part of the values, from index `k + 1` on. */
  function OrderOf(v: seq<nat>, k: nat): OrderCount {
    if |v| < k + 2 then OtherType(2)
    else if v[k + 1] == 0 then LsbLength(if |v| > k + 2 then v[k + 2] else 0)
    else if v[k + 1] == 1 && |v| >= k + 6 then
      Cycle(v[k + 2] == 1, SignedOf(v[k + 3]), SignedOf(v[k + 4]),
            seq(|v| - k - 6, i requires 0 <= i < |v| - k - 6 => SignedOf(v[k + 6 + i])))
    else OtherType(v[k + 1])
  }

  function ChromaOf(v: seq<nat>): Chroma
    requires |v| >= 10
  {
    var c := if v[4] == 3 then 1 else 0;
    Chroma(v[4], c == 1 && v[5] == 1, v[5 + c], v[6 + c], v[7 + c] == 1, v[8 + c] == 1)
  }

  /** The header with these values. */
  function HeaderOf(v: seq<nat>, k: nat): SpsHeader
    requires 4 <= k < |v|
  {
    SpsHeader(v[0], v[1], v[2], v[3],
              if |v| >= 10 then ChromaOf(v) else Chroma(0, false, 0, 0, false, false), v[k], OrderOf(v, k))
  }

  /** How many values there are. */
  lemma AskedFront(v: seq<nat>) returns (k: nat)
    requires NextElement(v) == Stop && forall i :: 0 <= i < |v| ==> Asked(v, i)
    ensures |v| >= 6 && k < |v| && 4 <= k && NextElement(v) == AfterChroma(v, k)
    ensures HighProfile(v[0]) ==> |v| > 10 && k == (if v[4] == 3 then 10 else 9) && v[k - 1] == 0
    ensures !HighProfile(v[0]) ==> k == 4
  {
    hide HighProfile;
    k := if !HighProfile(v[0]) then 4 else if v[4] == 3 then 10 else 9;
  }

  lemma AskedBack(v: seq<nat>, k: nat)
    requires 4 <= k < |v| && NextElement(v) == AfterChroma(v, k) == Stop
    requires forall i :: k <= i < |v| ==> Asked(v, i) && NextElement(v[..i]) == AfterChroma(v[..i], k)
    ensures |v| >= k + 2 && v[k + 1] == 0 ==> |v| == k + 3
    ensures |v| >= k + 2 && v[k + 1] == 1 ==> |v| >= k + 6 && v[k + 5] <= 255 && |v| == k + 6 + v[k + 5] && v[k + 2] < 2
    ensures |v| >= k + 2 && v[k + 1] > 1 ==> |v| == k + 2
    ensures |v| >= k + 2
  {
    hide NextElement;
    assert |v| >= k + 2;
    if v[k + 1] == 0 {
      NoMore(v, k, k + 3);
    } else if v[k + 1] == 1 {
      assert Asked(v, k + 2);
      assert Pow2(1) == 2;
      NoMore(v, k, k + 6 + v[k + 5]);
    } else {
      NoMore(v, k, k + 2);
    }
  }

  /** Nothing is asked for where the order count part stops. */
  lemma NoMore(v: seq<nat>, k: nat, i: nat)
    requires forall j :: k <= j < |v| ==> Asked(v, j) && NextElement(v[..j]) == AfterChroma(v[..j], k)
    requires 4 <= k <= i && (i < |v| ==> AfterChroma(v[..i], k) == Stop)
    ensures |v| <= i
  {
    hide NextElement, AfterChroma;
  }

  /** The values of the order count part, type by type. */
  lemma LsbOf(v: seq<nat>, k: nat)
    requires 4 <= k && k + 3 == |v| && v[k + 1] == 0
    ensures Values([Golomb(v[k])] + OrderFields(OrderOf(v, k))) == v[k..]
  {
  }

  lemma OtherOf(v: seq<nat>, k: nat)
    requires 4 <= k && k + 2 == |v| && v[k + 1] > 1
    ensures Values([Golomb(v[k])] + OrderFields(OrderOf(v, k))) == v[k..]
  {
  }

  lemma CycleOf(v: seq<nat>, k: nat)
    requires 4 <= k && k + 6 <= |v| && v[k + 1] == 1 && |v| == k + 6 + v[k + 5] && v[k + 2] < 2
    ensures Values([Golomb(v[k])] + OrderFields(OrderOf(v, k))) == v[k..]
  {
    hide SignedOf, SignedCode;
    var o, w := OrderOf(v, k), v[k..];
    var fs := [Golomb(v[k])] + OrderFields(o);
    assert |fs| == |w| && |o.offsets| == v[k + 5];
    forall i | 0 <= i < |fs| ensures ValueOf(fs[i]) == w[i] {
      SignedBack(w[i]);
      assert w[i] == v[k + i];
      assert i >= 6 ==> fs[i] == Signed(SignedOf(v[k + i]));
    }
  }

  lemma BackFieldsOf(v: seq<nat>, k: nat)
    requires 4 <= k && k + 2 <= |v|
    requires v[k + 1] == 0 ==> |v| == k + 3
    requires v[k + 1] == 1 ==> |v| >= k + 6 && v[k + 5] <= 255 && |v| == k + 6 + v[k + 5] && v[k + 2] < 2
    requires v[k + 1] > 1 ==> |v| == k + 2
    ensures var h := HeaderOf(v, k);
      && Values(BackFields(h)) == v[k..] && (h.order.OtherType? ==> h.order.kind > 1)
      && (h.order.Cycle? ==> |h.order.offsets| <= 255)
  {
    hide ChromaOf, SignedOf, OrderFields, Values;
    if v[k + 1] == 0 {
      LsbOf(v, k);
    } else if v[k + 1] == 1 {
      CycleOf(v, k);
    } else {
      OtherOf(v, k);
    }
  }

  lemma FrontFieldsOf(v: seq<nat>, k: nat)
    requires 4 <= k < |v|
    requires HasChroma(v[0]) ==> |v| > 10 && k == (if v[4] == 3 then 10 else 9) && v[k - 1] == 0
    requires HasChroma(v[0]) ==> v[k - 2] < 2 && (v[4] == 3 ==> v[5] < 2)
    requires !HasChroma(v[0]) ==> k == 4
    ensures var h := HeaderOf(v, k);
      Values(FrontFields(h)) == v[..k] && (HasChroma(h.profile) ==> !h.chroma.scalingMatrix)
  {
    hide HasChroma, OrderOf;
  }

  /** The values of a parsed header are those of a header that can be written. */
  lemma HeaderBack(v: seq<nat>) returns (h: SpsHeader)
    requires NextElement(v) == Stop && forall i :: 0 <= i < |v| ==> Asked(v, i)
    ensures Values(HeaderFields(h)) == v
    ensures HasChroma(h.profile) ==> !h.chroma.scalingMatrix
    ensures (h.order.OtherType? ==> h.order.kind > 1) && (h.order.Cycle? ==> |h.order.offsets| <= 255)
  {
    hide AfterChroma, HasChroma, HighProfile, NextElement, FrontFields, BackFields, HeaderOf;
    var k := AskedFront(v);
    SameProfiles(v[0]);
    AskedLater(v, k);
    AskedBack(v, k);
    AskedFlags(v, k);
    FrontFieldsOf(v, k);
    BackFieldsOf(v, k);
    h := HeaderOf(v, k);
    FieldsOf(h);
    ValuesConcat(FrontFields(h), BackFields(h));
  }

  lemma FieldsOf(h: SpsHeader)
    ensures HeaderFields(h) == FrontFields(h) + BackFields(h)
  {
    hide FrontFields, OrderFields;
  }

  lemma AskedLater(v: seq<nat>, k: nat)
    requires |v| >= 6 && 4 <= k < |v|
    requires HighProfile(v[0]) ==> |v| > 10 && k == (if v[4] == 3 then 10 else 9) && v[k - 1] == 0
    requires !HighProfile(v[0]) ==> k == 4
    ensures forall i :: k <= i < |v| ==> NextElement(v[..i]) == AfterChroma(v[..i], k)
  {
    hide HighProfile, AfterChroma;
  }

  lemma AskedFlags(v: seq<nat>, k: nat)
    requires |v| >= 6 && 4 <= k < |v| && forall i :: 0 <= i < |v| ==> Asked(v, i)
    requires HighProfile(v[0]) ==> |v| > 10 && k == (if v[4] == 3 then 10 else 9)
    ensures HighProfile(v[0]) ==> v[k - 2] < 2 && (v[4] == 3 ==> v[5] < 2)
  {
    hide HighProfile, AfterChroma;
    if HighProfile(v[0]) {
      assert Pow2(1) == 2;
      assert Asked(v, k - 2) && Asked(v, 5);
    }
  }

  /** Reading the fields of a header off the bits one by one gives the bits of the header. */
  lemma {:induction false} FieldsBack(b: Bits, fs: seq<Field>, n: nat)
    requires ParsePrefix(b, 0, []).Some? && ParsePrefix(b, 0, []).value.vals == Values(fs) && n <= |fs|
    requires forall i :: 0 <= i < |fs| ==> Expected(fs, i) && (fs[i].Fixed? ==> fs[i].n > 0)
    ensures EncodeAll(fs[..n]) <= b && AllWritable(fs[..n])
    ensures ParsePrefix(b, 0, []) == ParsePrefix(b, |EncodeAll(fs[..n])|, Values(fs[..n]))
  {
    hide Encode, NextElement, ReadElement, Writable, ElementOf, ValueOf;
    if n == 0 {
      assert fs[..0] == [] && Values([]) == [];
    } else {
      var init, f := fs[..n - 1], fs[n - 1];
      FieldsBack(b, fs, n - 1);
      assert fs[..n] == init + [f];
      EncodeSplit(init, [f]);
      EncodeOne(f);
      var pos := |EncodeAll(init)|;
      assert Expected(fs, n - 1);
      PrefixStep(b, pos, Values(init), ElementOf(f));
      var r := ReadElement(b, pos, ElementOf(f)).value;
      assert r.val == ValueOf(f) by { ValueTaken(b, fs, n); }
      FieldBack(b, pos, f);
      assert b[..r.pos] == b[..pos] + b[pos..r.pos];
      assert Values(fs[..n]) == Values(init) + [ValueOf(f)];
    }
  }

  lemma ValueTaken(b: Bits, fs: seq<Field>, n: nat)
    requires 0 < n <= |fs| && ParsePrefix(b, 0, []).Some? && ParsePrefix(b, 0, []).value.vals == Values(fs)
    requires Expected(fs, n - 1) && |EncodeAll(fs[..n - 1])| <= |b|
    requires ParsePrefix(b, 0, []) == ParsePrefix(b, |EncodeAll(fs[..n - 1])|, Values(fs[..n - 1]))
    ensures var pos := |EncodeAll(fs[..n - 1])|;
      && ReadElement(b, pos, ElementOf(fs[n - 1])).Some?
      && ReadElement(b, pos, ElementOf(fs[n - 1])).value.val == ValueOf(fs[n - 1])
  {
    hide Encode, NextElement, ReadElement, ElementOf, ValueOf;
    var pos, v, e := |EncodeAll(fs[..n - 1])|, Values(fs[..n - 1]), ElementOf(fs[n - 1]);
    PrefixStep(b, pos, v, e);
    var r := ReadElement(b, pos, e).value;
    assert (v + [r.val]) <= Values(fs);
    assert Values(fs)[n - 1] == (v + [r.val])[n - 1];
  }

  lemma FixedWide(h: SpsHeader)
    ensures forall i :: 0 <= i < |HeaderFields(h)| && HeaderFields(h)[i].Fixed? ==> HeaderFields(h)[i].n > 0
  {
    hide HasChroma;
  }

  /** Bits that parse are those of a written header. */
  lemma ParsedWritten(b: Bits) returns (h: SpsHeader, refs: nat, rest: Bits)
    requires ParseSps(b).Some?
    ensures Plain(h) && refs <= MAX_CODE && b == WriteBits(h, refs, rest)
  {
    hide NextElement, ParsePrefix, ReadUe, EncodeAll, HeaderFields, GolombBits, HasChroma, Writable;
    var p := ParsePrefix(b, 0, []).value;
    ParsedAsked(b, 0, []);
    h := HeaderBack(p.vals);
    var fs := HeaderFields(h);
    FixedWide(h);
    assert fs[..|fs|] == fs;
    forall i | 0 <= i < |fs| ensures Expected(fs, i) {
      HeaderExpected(h, i);
    }
    FieldsBack(b, fs, |fs|);
    assert p.pos == |EncodeAll(fs)| by { StopHere(b, |EncodeAll(fs)|, p.vals); }
    GolombBack(b, p.pos);
    refs, rest := ParseSps(b).value.maxRef, ParseSps(b).value.rest;
    var end := ReadUe(b, p.pos).value.pos;
    assert b == b[..p.pos] + (b[p.pos..end] + b[end..]);
  }

  lemma HeaderExpected(h: SpsHeader, i: nat)
    requires HasChroma(h.profile) ==> !h.chroma.scalingMatrix
    requires (h.order.OtherType? ==> h.order.kind > 1) && (h.order.Cycle? ==> |h.order.offsets| <= 255)
    requires i < |HeaderFields(h)|
    ensures Expected(HeaderFields(h), i)
  {
    hide NextElement, HasChroma, FrontFields, OrderFields;
    FieldsOf(h);
    BackExpected(h, BackFields(h), i);
  }

  lemma StopHere(b: Bits, pos: nat, v: seq<nat>)
    requires pos <= |b| && NextElement(v) == Stop
    ensures ParsePrefix(b, pos, v) == Some(Prefix(v, pos))
  {
    hide NextElement;
  }

  /**
   A sequence parameter set is rewritten only if it is a written header without a scaling matrix and with at most
   255 offsets, its codes at most 31 zeros long, that is not cut short; any other NAL unit comes back unchanged.
   */
  lemma RewrittenIff(sps: Bytes)
    ensures Header(sps).Some? <==>
      && |sps| >= 4 && sps[0] % 32 == 7
      && exists h, refs: nat, rest :: Plain(h) && refs <= MAX_CODE && BitsOf(sps[1..]) == WriteBits(h, refs, rest)
    ensures Header(sps).None? ==> Patch(sps) == sps
  {
    hide ParseSps, BitsOf, WriteBits, Plain, PatchBits;
    if |sps| >= 4 && sps[0] % 32 == 7 {
      var b := BitsOf(sps[1..]);
      if ParseSps(b).Some? {
        var h, refs, rest := ParsedWritten(b);
      }
      if h, refs: nat, rest :| Plain(h) && refs <= MAX_CODE && b == WriteBits(h, refs, rest) {
        WrittenParses(h, refs, rest);
      }
    }
  }
}
