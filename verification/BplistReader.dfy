/** The property list reader as written, with its 64-bit bounds tests: src/protocol/bplist.cpp:136-208. */
module BplistReader {
  import opened Wire
  import opened Bytes
  import opened Bplist

  // ---- the 64-bit bounds tests ----

  const SIZE_SPACE: int := 0x1_0000_0000_0000_0000

  /** The source's test that `amount` bytes from `pos` end inside `total`: the sum is taken in 64 bits. */
  predicate PassesTest(pos: nat, amount: nat, total: nat) {
    (pos + amount) % SIZE_SPACE <= total
  }

  lemma UnwrappedTest(pos: nat, amount: nat, total: nat)
    requires pos + amount < SIZE_SPACE
    ensures PassesTest(pos, amount, total) <==> pos + amount <= total
  {
    DivModUnique(pos + amount, SIZE_SPACE, 0, pos + amount);
  }

  lemma WrappedOnceTest(pos: nat, amount: nat, total: nat)
    requires pos <= total && amount < SIZE_SPACE <= pos + amount < 2 * SIZE_SPACE
    ensures PassesTest(pos, amount, total)
  {
    DivModUnique(pos + amount, SIZE_SPACE, 1, pos + amount - SIZE_SPACE);
  }

  // ---- the reader ----

  /** `Overrun`: a test let pass what does not fit into the data, and nothing is promised any more. */
  datatype Outcome = Got(value: Value) | Refused | Overrun

  /** What a test makes of an object that would be `good` if it fits. */
  function Guarded(d: Bytes, pos: nat, amount: nat, good: Outcome): Outcome {
    if !PassesTest(pos, amount, |d|) then Refused else if pos + amount > |d| then Overrun else good
  }

  function BytesAt(d: Bytes, pos: nat, n: nat): Bytes {
    if pos + n <= |d| then d[pos..pos + n] else []
  }

  function ReadAsWritten(d: Bytes, offs: seq<nat>, refSize: nat, ref: nat, depth: nat): Outcome
    decreases MAX_DEPTH - depth, 0
  {
    if ref >= |offs| || depth >= MAX_DEPTH || offs[ref] >= |d| then Refused
    else
      var pos := offs[ref] + 1;
      var marker := d[offs[ref]];
      match marker / 16
      case 0 => Got(if marker == 8 then Bool(false) else if marker == 9 then Bool(true) else Null)
      case 1 =>
        var n := ByteWidth(marker % 16);
        if n > 8 || pos + n > |d| then Refused else Got(Num(Signed64(FromBe(d[pos..pos + n]))))
      case 4 =>
        var z := ReadSize(d, pos, marker);
        if z.None? then Refused
        else Guarded(d, z.value.pos, z.value.size, Got(Blob(BytesAt(d, z.value.pos, z.value.size))))
      case 5 =>
        var z := ReadSize(d, pos, marker);
        if z.None? then Refused
        else Guarded(d, z.value.pos, z.value.size, Got(Text(BytesAt(d, z.value.pos, z.value.size))))
      case 13 =>
        var z := ReadSize(d, pos, marker);
        if z.None? then Refused
        else if !PassesTest(z.value.pos, z.value.size * 2 * refSize, |d|) then Refused
        else if z.value.pos + z.value.size * 2 * refSize > |d| then Overrun
        else
          var refs := RefPairs(d, z.value.pos, z.value.size, refSize);
          EntriesAsWritten(d, offs, refSize, refs.0, refs.1, depth + 1)
      case _ => Refused
  }

  function EntriesAsWritten(d: Bytes, offs: seq<nat>, refSize: nat, ks: seq<nat>, vs: seq<nat>, depth: nat)
    : (r: Outcome)
    requires |ks| == |vs|
    ensures r.Got? ==> r.value.Dict?
    decreases MAX_DEPTH - depth, 1 + |ks|
  {
    if ks == [] then Got(Dict([]))
    else
      var n := |ks| - 1;
      var init := EntriesAsWritten(d, offs, refSize, ks[..n], vs[..n], depth);
      if !init.Got? then init
      else
        var k := ReadAsWritten(d, offs, refSize, ks[n], depth);
        if !k.Got? then k
        else if !k.value.Text? then Refused
        else
          var v := ReadAsWritten(d, offs, refSize, vs[n], depth);
          if !v.Got? then v else Got(Dict(Put(init.value.entries, k.value.s, v.value)))
  }

  function LoadAsWritten(data: Bytes): Outcome {
    if |data| < 40 || data[..7] != MAGIC[..7] then Refused
    else
      var tr := data[|data| - 32..];
      var offSize, refSize := tr[6], tr[7];
      var num, top, tableOff := FromBe(tr[8..16]), FromBe(tr[16..24]), FromBe(tr[24..32]);
      if offSize < 1 || offSize > 8 || refSize < 1 || refSize > 8 || num == 0 || num > MAX_OBJECTS then Refused
      else if tableOff >= |data| || !PassesTest(tableOff, num * offSize, |data| - 32) || top >= num then Refused
      else if tableOff + num * offSize > |data| - 32 then Overrun
      else
        var offs := Unpack(data[tableOff..], num, offSize);
        if exists i :: 0 <= i < |offs| && offs[i] >= tableOff then Refused
        else ReadAsWritten(data, offs, refSize, top, 0)
  }

  // ---- where it is right ----

  /** The object at `at` has a size that its test lets pass although the object does not fit. */
  predicate Wraps(d: Bytes, at: nat, refSize: nat) {
    && at < |d| && d[at] / 16 in {4, 5, 13}
    && (var z := ReadSize(d, at + 1, d[at]);
        z.Some? &&
        (var amount := if d[at] / 16 == 13 then z.value.size * 2 * refSize else z.value.size;
         PassesTest(z.value.pos, amount, |d|) && z.value.pos + amount > |d|))
  }

  ghost predicate Same(o: Outcome, r: Option<Value>) {
    o == if r.Some? then Got(r.value) else Refused
  }

  /** The reader as written agrees with the safe one, or overruns where that one refuses, for a listed object. */
  ghost predicate Agrees(d: Bytes, offs: seq<nat>, refSize: nat, o: Outcome, r: Option<Value>) {
    Same(o, r) || (o == Overrun && r.None? && exists i :: 0 <= i < |offs| && Wraps(d, offs[i], refSize))
  }

  lemma {:induction false} ReadAgrees(d: Bytes, offs: seq<nat>, refSize: nat, ref: nat, depth: nat)
    requires |d| < SIZE_SPACE
    ensures Agrees(d, offs, refSize, ReadAsWritten(d, offs, refSize, ref, depth),
                   ReadObject(d, offs, refSize, ref, depth))
    decreases MAX_DEPTH - depth, 0
  {
    hide ReadSize, FromBe, RefPairs, Signed64, PassesTest;
    if ref < |offs| && depth < MAX_DEPTH && offs[ref] < |d| {
      var z := ReadSize(d, offs[ref] + 1, d[offs[ref]]);
      if d[offs[ref]] / 16 in {4, 5, 13} && z.Some? {
        SizedUnwrapped(d, z.value, refSize);
        if d[offs[ref]] / 16 == 13 && z.value.pos + z.value.size * 2 * refSize <= |d| {
          var refs := RefPairs(d, z.value.pos, z.value.size, refSize);
          EntriesAgree(d, offs, refSize, refs.0, refs.1, depth + 1);
        }
      }
    }
  }

  lemma {:induction false} EntriesAgree(d: Bytes, offs: seq<nat>, refSize: nat, ks: seq<nat>, vs: seq<nat>, depth: nat)
    requires |d| < SIZE_SPACE && |ks| == |vs|
    ensures var es := ReadEntries(d, offs, refSize, ks, vs, depth);
      Agrees(d, offs, refSize, EntriesAsWritten(d, offs, refSize, ks, vs, depth),
             if es.None? then None else Some(Dict(es.value)))
    decreases MAX_DEPTH - depth, 1 + |ks|
  {
    hide ReadAsWritten, ReadObject, Wraps;
    if ks != [] {
      var n := |ks| - 1;
      EntriesAgree(d, offs, refSize, ks[..n], vs[..n], depth);
      ReadAgrees(d, offs, refSize, ks[n], depth);
      ReadAgrees(d, offs, refSize, vs[n], depth);
    }
  }

  /** What fits passes its test. */
  lemma SizedUnwrapped(d: Bytes, z: Sized, refSize: nat)
    requires |d| < SIZE_SPACE
    ensures z.pos + z.size <= |d| ==> PassesTest(z.pos, z.size, |d|)
    ensures z.pos + z.size * 2 * refSize <= |d| ==> PassesTest(z.pos, z.size * 2 * refSize, |d|)
  {
    if z.pos + z.size <= |d| {
      UnwrappedTest(z.pos, z.size, |d|);
    }
    if z.pos + z.size * 2 * refSize <= |d| {
      UnwrappedTest(z.pos, z.size * 2 * refSize, |d|);
    }
  }

  /** A listed object whose size wraps does overrun. */
  lemma WrapsOverruns(d: Bytes, offs: seq<nat>, refSize: nat, ref: nat, depth: nat)
    requires ref < |offs| && depth < MAX_DEPTH && Wraps(d, offs[ref], refSize)
    ensures ReadAsWritten(d, offs, refSize, ref, depth) == Overrun
  {
    hide ReadSize, FromBe, RefPairs, PassesTest;
  }

  /** A string or byte string overruns if and only if its position and size add up to 2^64 or more. */
  lemma BytesOverrunIff(d: Bytes, offs: seq<nat>, refSize: nat, ref: nat, depth: nat)
    requires |d| < SIZE_SPACE && ref < |offs| && depth < MAX_DEPTH && offs[ref] < |d| && d[offs[ref]] / 16 in {4, 5}
    ensures ReadAsWritten(d, offs, refSize, ref, depth) == Overrun <==>
      var z := ReadSize(d, offs[ref] + 1, d[offs[ref]]);
      z.Some? && z.value.pos + z.value.size >= SIZE_SPACE
  {
    hide PassesTest, FromBe;
    var z := ReadSize(d, offs[ref] + 1, d[offs[ref]]);
    if z.Some? {
      SizeBound(d, offs[ref] + 1, d[offs[ref]]);
      if z.value.pos + z.value.size < SIZE_SPACE {
        UnwrappedTest(z.value.pos, z.value.size, |d|);
      } else {
        WrappedOnceTest(z.value.pos, z.value.size, |d|);
      }
    }
  }

  /** A size is below 2^64, and below 2^32 unless it is written in eight bytes. */
  lemma SizeBound(d: Bytes, pos: nat, marker: U8)
    requires pos <= |d| && ReadSize(d, pos, marker).Some?
    ensures var z := ReadSize(d, pos, marker).value;
      && z.pos <= |d| && z.size < SIZE_SPACE
      && (!(marker % 16 == 15 && d[pos] == 0x13) ==> z.size < 0x1_0000_0000)
  {
    hide FromBe;
    var z := ReadSize(d, pos, marker).value;
    if marker % 16 == 15 {
      FromBeBound(d[pos + 1..z.pos]);
      Widths();
    }
  }

  /** A size that is not written in eight bytes never wraps. */
  lemma NarrowNeverWraps(d: Bytes, at: nat, refSize: nat)
    requires |d| < 0x8000_0000_0000_0000 && refSize <= 8
    requires at + 1 < |d| && d[at] % 16 == 15 ==> d[at + 1] != 0x13
    ensures !Wraps(d, at, refSize)
  {
    hide ReadSize, PassesTest;
    if at < |d| {
      var z := ReadSize(d, at + 1, d[at]);
      if z.Some? {
        SizeBound(d, at + 1, d[at]);
        WideNeedsByte(d, at);
        var n := z.value.size;
        MulMono(16, n, 0xFFFF_FFFF);
        if n > 0 {
          MulMono(2 * n, refSize, 8);
        }
        UnwrappedTest(z.value.pos, n, |d|);
        UnwrappedTest(z.value.pos, n * 2 * refSize, |d|);
      }
    }
  }

  lemma WideNeedsByte(d: Bytes, at: nat)
    requires at < |d| && ReadSize(d, at + 1, d[at]).Some?
    ensures d[at] % 16 == 15 ==> at + 1 < |d|
  {
  }

  // ---- whole files ----

  /** The test of the offset table against the trailer is always right. */
  lemma TableTestRight(tableOff: nat, num: nat, w: nat, total: nat)
    requires 32 <= total < 0x8000_0000_0000_0000 && tableOff < total && num <= MAX_OBJECTS && w <= 8
    ensures PassesTest(tableOff, num * w, total - 32) <==> tableOff + num * w <= total - 32
  {
    if num > 0 {
      MulMono(num, w, 8);
    }
    UnwrappedTest(tableOff, num * w, total - 32);
  }

  /**
   * Every file: the reader as written gives what the safe reader gives, or overruns, at an object whose size
   * wraps, where the safe reader refuses.
   */
  lemma LoadAgrees(data: Bytes)
    requires |data| < 0x8000_0000_0000_0000
    ensures || Same(LoadAsWritten(data), Load(data))
            || (&& LoadAsWritten(data) == Overrun && Load(data) == None
                && exists at, refSize :: refSize <= 8 && Wraps(data, at, refSize))
  {
    hide ReadAsWritten, ReadObject, Unpack, FromBe, PassesTest, Wraps;
    if |data| >= 40 && data[..7] == MAGIC[..7] {
      var tr := data[|data| - 32..];
      var offSize, refSize := tr[6], tr[7];
      var num, top, tableOff := FromBe(tr[8..16]), FromBe(tr[16..24]), FromBe(tr[24..32]);
      if offSize <= 8 && num <= MAX_OBJECTS && tableOff < |data| {
        TableTestRight(tableOff, num, offSize, |data|);
        if tableOff + num * offSize <= |data| - 32 {
          var offs := Unpack(data[tableOff..], num, offSize);
          ReadAgrees(data, offs, refSize, top, 0);
        }
      }
    }
  }

  /** A file without an eight-byte size after a marker is read like by the safe reader. */
  lemma NarrowFilesAgree(data: Bytes)
    requires |data| < 0x8000_0000_0000_0000
    requires forall i :: 0 <= i < |data| - 1 && data[i] % 16 == 15 ==> data[i + 1] != 0x13
    ensures Same(LoadAsWritten(data), Load(data))
  {
    hide LoadAsWritten, Load, Wraps;
    LoadAgrees(data);
    forall at: nat, refSize: nat | refSize <= 8 ensures !Wraps(data, at, refSize) {
      NarrowNeverWraps(data, at, refSize);
    }
  }

  /** Whatever the writer dumps, the reader as written loads back. */
  lemma LoadsWhatIsDumped(es: seq<Entry>)
    requires Writable(es)
    ensures LoadAsWritten(Dump(es)) == Got(Dict(es))
  {
    DumpSize(es);
    hide LoadAsWritten, Load, Dump;
    LoadDump(es);
    LoadAgrees(Dump(es));
  }

  lemma DumpSize(es: seq<Entry>)
    requires Writable(es)
    ensures |Dump(es)| < 0x2_0000_0000
  {
    hide Flatten, Joined, Encode, RootObject, Packed, Trailer;
    var o := Objects(Flatten(es), es);
    var n := |MAGIC + Joined(o)|;
    assert |Packed(Offsets(o), WidthFor(n))| == |o| * WidthFor(n);
    MulMono(|o|, WidthFor(n), 4);
  }

  // ---- a file that overruns ----

  /** One string whose eight size bytes are all ones. */
  const WIDE_STRING: Bytes := [0x5F, 0x13, 255, 255, 255, 255, 255, 255, 255, 255]
  const WIDE_FILE: Bytes := MAGIC + WIDE_STRING + [8] + Trailer(1, 1, 1, 18)

  lemma {:induction false} AllOnes(b: Bytes)
    requires forall i :: 0 <= i < |b| ==> b[i] == 255
    ensures FromBe(b) == Pow256(|b|) - 1
  {
    if b != [] {
      AllOnes(b[..|b| - 1]);
    }
  }

  /** The parts of the file that the reader looks at. */
  lemma WideFileParts()
    ensures var d := WIDE_FILE;
      && |d| == 51 && d[..7] == MAGIC[..7] && d[19..] == Trailer(1, 1, 1, 18)
      && d[18..][..1] == [8] && d[8] == 0x5F && d[9] == 0x13
      && d[10..18] == [255, 255, 255, 255, 255, 255, 255, 255]
  {
    hide Trailer;
  }

  /** The string claims 2^64 - 1 bytes; the safe reader refuses the file, the reader as written overruns. */
  lemma WideFileOverruns()
    ensures LoadAsWritten(WIDE_FILE) == Overrun && Load(WIDE_FILE) == None
  {
    hide ReadAsWritten, ReadObject, Trailer, FromBe, WIDE_FILE;
    var d := WIDE_FILE;
    WideFileParts();
    TrailerReadBack(1, 1, 1, 18);
    var offs: seq<nat> := [8];
    assert Unpack(d[18..], 1, 1) == offs by {
      OneByteTable(d[18..]);
    }
    WideStringRead(d);
    WrappedOnceTest(18, 0xFFFF_FFFF_FFFF_FFFF, 51);
    BytesOverrunIff(d, offs, 1, 0, 0);
    UnwrappedTest(18, 1, 19);
    ReadAgrees(d, offs, 1, 0, 0);
  }

  lemma OneByteTable(b: Bytes)
    requires b != []
    ensures Unpack(b, 1, 1) == [b[0] as nat]
  {
    assert b[..1] == [b[0]];
    FromBeByte(b[0]);
    assert Unpack(b[1..], 0, 1) == [];
  }

  lemma WideStringRead(d: Bytes)
    requires |d| == 51 && d[8] == 0x5F && d[9] == 0x13 && d[10..18] == [255, 255, 255, 255, 255, 255, 255, 255]
    ensures ReadSize(d, 9, d[8]) == Some(Sized(0xFFFF_FFFF_FFFF_FFFF, 18))
  {
    AllOnes(d[10..18]);
    Widths();
  }

  // ---- the loops ----

  /** The reader's loop over the offset table. */
  method ReadTable(data: Bytes, tableOff: nat, num: nat, w: nat) returns (offs: seq<nat>)
    requires tableOff <= |data| && tableOff + num * w <= |data|
    ensures offs == Unpack(data[tableOff..], num, w)
  {
    hide Unpack, FromBe;
    offs := [];
    var pos: nat, left: nat := tableOff, num;
    while left > 0
      invariant pos <= |data| && pos + left * w <= |data|
      invariant offs + Unpack(data[pos..], left, w) == Unpack(data[tableOff..], num, w)
      decreases left
    {
      UnpackStep(data, pos, left, w);
      Reassociate(offs, FromBe(data[pos..pos + w]), Unpack(data[pos + w..], left - 1, w));
      offs := offs + [FromBe(data[pos..pos + w])];
      pos, left := pos + w, left - 1;
    }
    UnpackNone(data[pos..], w);
  }

  lemma Reassociate(a: seq<nat>, x: nat, b: seq<nat>)
    ensures a + ([x] + b) == (a + [x]) + b
  {
  }

  lemma UnpackNone(b: Bytes, w: nat)
    ensures Unpack(b, 0, w) == []
  {
  }

  method AllBelow(offs: seq<nat>, limit: nat) returns (ok: bool)
    ensures ok <==> forall i :: 0 <= i < |offs| ==> offs[i] < limit
  {
    for i := 0 to |offs|
      invariant forall j :: 0 <= j < i ==> offs[j] < limit
    {
      if offs[i] >= limit {
        return false;
      }
    }
    return true;
  }

  lemma UnpackStep(data: Bytes, pos: nat, left: nat, w: nat)
    requires left > 0 && pos + left * w <= |data|
    ensures pos + w <= |data| && pos + w + (left - 1) * w <= |data|
    ensures Unpack(data[pos..], left, w) == [FromBe(data[pos..pos + w])] + Unpack(data[pos + w..], left - 1, w)
  {
    assert left * w == (left - 1) * w + w;
    assert data[pos..][..w] == data[pos..pos + w] && data[pos..][w..] == data[pos + w..];
  }

  /** `read_object`: scalars directly, a dictionary by reading its references in turn. */
  method ReadObjectAt(d: Bytes, offs: seq<nat>, refSize: nat, ref: nat, depth: nat) returns (r: Outcome)
    ensures r == ReadAsWritten(d, offs, refSize, ref, depth)
    decreases MAX_DEPTH - depth, 1
  {
    hide ReadSize, RefPairs, FromBe, Put, Signed64, PassesTest;
    if ref >= |offs| || depth >= MAX_DEPTH || offs[ref] >= |d| {
      return Refused;
    }
    var marker, pos := d[offs[ref]], offs[ref] + 1;
    var top := marker / 16;
    if top == 0 {
      return Got(if marker == 8 then Bool(false) else if marker == 9 then Bool(true) else Null);
    }
    if top == 1 {
      var n := ByteWidth(marker % 16);
      if n > 8 || pos + n > |d| {
        return Refused;
      }
      return Got(Num(Signed64(FromBe(d[pos..pos + n]))));
    }
    if top != 4 && top != 5 && top != 13 {
      return Refused;
    }
    var z := ReadSize(d, pos, marker);
    if z.None? {
      return Refused;
    }
    var start, amount := z.value.pos, if top == 13 then z.value.size * 2 * refSize else z.value.size;
    if !PassesTest(start, amount, |d|) {
      return Refused;
    }
    if start + amount > |d| {
      return Overrun;
    }
    if top != 13 {
      var bytes := d[start..start + amount];
      return Got(if top == 4 then Blob(bytes) else Text(bytes));
    }
    r := ReadDict(d, offs, refSize, start, z.value.size, depth);
  }

  /** The entries of a dictionary, reference by reference; the first failure ends the loop. */
  method ReadDict(d: Bytes, offs: seq<nat>, refSize: nat, pos: nat, n: nat, depth: nat) returns (r: Outcome)
    requires depth < MAX_DEPTH && pos + n * 2 * refSize <= |d|
    ensures var refs := RefPairs(d, pos, n, refSize);
      r == EntriesAsWritten(d, offs, refSize, refs.0, refs.1, depth + 1)
    decreases MAX_DEPTH - depth, 0
  {
    hide RefPairs, Put, ReadAsWritten, EntriesAsWritten;
    var refs := RefPairs(d, pos, n, refSize);
    var dict: seq<Entry> := [];
    NoEntries(d, offs, refSize, depth + 1);
    assert refs.0[..0] == [] && refs.1[..0] == [];
    for i := 0 to n
      invariant EntriesAsWritten(d, offs, refSize, refs.0[..i], refs.1[..i], depth + 1) == Got(Dict(dict))
    {
      EntriesStep(d, offs, refSize, refs.0, refs.1, depth + 1, i);
      var k := ReadObjectAt(d, offs, refSize, refs.0[i], depth + 1);
      var v := Refused;
      if !k.Got? {
        v := k;
      } else if k.value.Text? {
        v := ReadObjectAt(d, offs, refSize, refs.1[i], depth + 1);
      }
      if !v.Got? {
        EntriesFail(d, offs, refSize, refs.0, refs.1, depth + 1, i + 1);
        return v;
      }
      dict := Put(dict, k.value.s, v.value);
    }
    assert refs.0[..n] == refs.0 && refs.1[..n] == refs.1;
    return Got(Dict(dict));
  }

  lemma NoEntries(d: Bytes, offs: seq<nat>, refSize: nat, depth: nat)
    ensures EntriesAsWritten(d, offs, refSize, [], [], depth) == Got(Dict([]))
  {
  }

  lemma EntriesStep(d: Bytes, offs: seq<nat>, refSize: nat, ks: seq<nat>, vs: seq<nat>, depth: nat, i: nat)
    requires |ks| == |vs| && i < |ks|
    ensures EntriesAsWritten(d, offs, refSize, ks[..i + 1], vs[..i + 1], depth) ==
            var init := EntriesAsWritten(d, offs, refSize, ks[..i], vs[..i], depth);
            if !init.Got? then init
            else
              var k := ReadAsWritten(d, offs, refSize, ks[i], depth);
              if !k.Got? then k
              else if !k.value.Text? then Refused
              else
                var v := ReadAsWritten(d, offs, refSize, vs[i], depth);
                if !v.Got? then v else Got(Dict(Put(init.value.entries, k.value.s, v.value)))
  {
    hide ReadAsWritten;
    assert ks[..i + 1][..i] == ks[..i] && vs[..i + 1][..i] == vs[..i];
  }

  lemma {:induction false} EntriesFail(d: Bytes, offs: seq<nat>, refSize: nat, ks: seq<nat>, vs: seq<nat>,
                                       depth: nat, i: nat)
    requires |ks| == |vs| && i <= |ks| && !EntriesAsWritten(d, offs, refSize, ks[..i], vs[..i], depth).Got?
    ensures EntriesAsWritten(d, offs, refSize, ks, vs, depth)
         == EntriesAsWritten(d, offs, refSize, ks[..i], vs[..i], depth)
    decreases |ks| - i
  {
    hide ReadAsWritten, EntriesAsWritten;
    if i == |ks| {
      assert ks[..i] == ks && vs[..i] == vs;
    } else {
      EntriesStep(d, offs, refSize, ks, vs, depth, i);
      EntriesFail(d, offs, refSize, ks, vs, depth, i + 1);
    }
  }

  method LoadFile(data: Bytes) returns (r: Outcome)
    ensures r == LoadAsWritten(data)
  {
    hide FromBe, Unpack, ReadAsWritten, PassesTest;
    if |data| < 40 || data[..7] != MAGIC[..7] {
      return Refused;
    }
    var tr := data[|data| - 32..];
    var offSize, refSize := tr[6], tr[7];
    var num, top, tableOff := FromBe(tr[8..16]), FromBe(tr[16..24]), FromBe(tr[24..32]);
    if offSize < 1 || offSize > 8 || refSize < 1 || refSize > 8 || num == 0 || num > MAX_OBJECTS {
      return Refused;
    }
    if tableOff >= |data| || !PassesTest(tableOff, num * offSize, |data| - 32) || top >= num {
      return Refused;
    }
    if tableOff + num * offSize > |data| - 32 {
      return Overrun;
    }
    var offs := ReadTable(data, tableOff, num, offSize);
    var ok := AllBelow(offs, tableOff);
    if !ok {
      return Refused;
    }
    r := ReadObjectAt(data, offs, refSize, top, 0);
  }
}
