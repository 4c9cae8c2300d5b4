/** Binary property lists: the writer for flat dictionaries and the reader of src/protocol/bplist.cpp. */
module Bplist {
  import opened Wire
  import opened Bytes
  import opened Decimal

  datatype Value =
    | Null
    | Bool(b: bool)
    | Num(i: int)
    | Text(s: Bytes)
    | Blob(data: Bytes)
    | Dict(entries: seq<Entry>)

  datatype Entry = Entry(key: Bytes, value: Value)

  const MAGIC: Bytes := [98, 112, 108, 105, 115, 116, 48, 48]  // "bplist00"
  const MAX_OBJECTS := 100000
  const MAX_DEPTH := 32

  // ---- the ordered dictionary (std::map) ----

  /** Lexicographic order of byte strings. */
  predicate Less(a: Bytes, b: Bytes) {
    b != [] && (a == [] || a[0] < b[0] || (a[0] == b[0] && Less(a[1..], b[1..])))
  }

  lemma LessAsymmetric(a: Bytes, b: Bytes)
    requires Less(a, b)
    ensures !Less(b, a) && a != b
  {
  }

  ghost predicate Sorted(es: seq<Entry>) {
    forall i, j :: 0 <= i < j < |es| ==> Less(es[i].key, es[j].key)
  }

  /** `(*dict)[k] = v`. */
  function Put(es: seq<Entry>, k: Bytes, v: Value): seq<Entry> {
    if es == [] || Less(k, es[0].key) then [Entry(k, v)] + es
    else if es[0].key == k then [Entry(k, v)] + es[1..]
    else [es[0]] + Put(es[1..], k, v)
  }

  lemma {:induction false} PutLast(es: seq<Entry>, k: Bytes, v: Value)
    requires forall i :: 0 <= i < |es| ==> Less(es[i].key, k)
    ensures Put(es, k, v) == es + [Entry(k, v)]
  {
    if es != [] {
      LessAsymmetric(es[0].key, k);
      PutLast(es[1..], k, v);
    }
  }

  // ---- writer ----

  /** Token, and the size in the smallest of the four forms. */
  function SizeHeader(token: U8, size: nat): (h: Bytes)
    requires token % 16 == 0
    ensures h != []
  {
    if size < 15 then [token + size]
    else if size < 0x100 then [token + 15, 0x10, size]
    else if size < 0x1_0000 then [token + 15, 0x11] + ToBe(size, 2)
    else [token + 15, 0x12] + ToBe(size, 4)
  }

  /** `uint64_t(x)` of a 64-bit signed integer. */
  function Unsigned64(x: int): nat
    requires -0x8000_0000_0000_0000 <= x < 0x8000_0000_0000_0000
  {
    if x >= 0 then x else x + 0x1_0000_0000_0000_0000
  }

  /** `int64_t(u)`. */
  function Signed64(u: nat): int {
    if u < 0x8000_0000_0000_0000 then u else u - 0x1_0000_0000_0000_0000
  }

  predicate Ascii(s: Bytes) {
    forall i :: 0 <= i < |s| ==> s[i] < 0x80
  }

  /** What the writer is given: 64-bit integers, ASCII strings and byte strings shorter than 2^32. */
  predicate IsScalar(v: Value) {
    match v
    case Num(i) => -0x8000_0000_0000_0000 <= i < 0x8000_0000_0000_0000
    case Text(s) => |s| < 0x1_0000_0000 && Ascii(s)
    case Blob(b) => |b| < 0x1_0000_0000
    case _ => false
  }

  function Encode(v: Value): (e: Bytes)
    requires IsScalar(v)
    ensures e != []
  {
    match v
    case Num(x) =>
      if 0 <= x < 0x100 then [0x10, x]
      else if 0 <= x < 0x1_0000 then [0x11] + ToBe(x, 2)
      else if 0 <= x < 0x1_0000_0000 then [0x12] + ToBe(x, 4)
      else [0x13] + ToBe(Unsigned64(x), 8)
    case Text(s) => SizeHeader(0x50, |s|) + s
    case Blob(b) => SizeHeader(0x40, |b|) + b
  }

  /** `repr_of`: the text by which scalars are shared. */
  function Repr(v: Value): Bytes
    requires IsScalar(v)
  {
    match v
    case Text(s) => [115, 58] + s        // "s:"
    case Blob(b) => [98, 58] + b         // "b:"
    case Num(i) => [105, 58] + Signed(i) // "i:"
  }

  /** Scalars are shared exactly when they are equal. */
  lemma ReprInjective(v: Value, w: Value)
    requires IsScalar(v) && IsScalar(w) && Repr(v) == Repr(w)
    ensures v == w
  {
    assert Repr(v)[0] == Repr(w)[0] && Repr(v)[2..] == Repr(w)[2..];
    match v
    case Num(i) => SignedInjective(i, w.i);
    case _ =>
  }

  ghost predicate Scalars(t: seq<Value>) {
    forall i :: 0 <= i < |t| ==> IsScalar(t[i])
  }

  /** Position of the shared scalar with the same text, or the length of the table. */
  function Find(t: seq<Value>, v: Value): (i: nat)
    requires Scalars(t) && IsScalar(v)
    ensures i <= |t|
  {
    if t == [] || Repr(t[0]) == Repr(v) then 0
    else
      assert forall j :: 0 <= j < |t[1..]| ==> t[1..][j] == t[j + 1];
      1 + Find(t[1..], v)
  }

  lemma {:induction false} FindMatches(t: seq<Value>, v: Value)
    requires Scalars(t) && IsScalar(v) && Find(t, v) < |t|
    ensures Repr(t[Find(t, v)]) == Repr(v)
  {
    hide Repr, IsScalar;
    if Repr(t[0]) != Repr(v) {
      FindMatches(t[1..], v);
    }
  }

  function AddShared(t: seq<Value>, v: Value): (r: seq<Value>)
    requires Scalars(t) && IsScalar(v)
    ensures Scalars(r) && t <= r && |r| <= |t| + 1
  {
    if Find(t, v) < |t| then t else t + [v]
  }

  ghost predicate FlatEntries(es: seq<Entry>) {
    forall i :: 0 <= i < |es| ==> IsScalar(Text(es[i].key)) && IsScalar(es[i].value)
  }

  function AddKeys(t: seq<Value>, es: seq<Entry>): (r: seq<Value>)
    requires Scalars(t) && FlatEntries(es)
    ensures Scalars(r) && t <= r
  {
    if es == [] then t
    else AddShared(AddKeys(t, es[..|es| - 1]), Text(es[|es| - 1].key))
  }

  function AddValues(t: seq<Value>, es: seq<Entry>): (r: seq<Value>)
    requires Scalars(t) && FlatEntries(es)
    ensures Scalars(r) && t <= r
  {
    if es == [] then t
    else AddShared(AddValues(t, es[..|es| - 1]), es[|es| - 1].value)
  }

  /** `Flat`: the shared scalars behind the root object, keys first. */
  function Flatten(es: seq<Entry>): (t: seq<Value>)
    requires FlatEntries(es)
    ensures Scalars(t)
  {
    AddValues(AddKeys([], es), es)
  }

  function KeyRefs(t: seq<Value>, es: seq<Entry>): (r: seq<nat>)
    requires Scalars(t) && FlatEntries(es)
    ensures |r| == |es|
  {
    seq(|es|, i requires 0 <= i < |es| => 1 + Find(t, Text(es[i].key)))
  }

  function ValueRefs(t: seq<Value>, es: seq<Entry>): (r: seq<nat>)
    requires Scalars(t) && FlatEntries(es)
    ensures |r| == |es|
  {
    seq(|es|, i requires 0 <= i < |es| => 1 + Find(t, es[i].value))
  }

  /** Numbers side by side, `w` bytes each. */
  function Packed(ns: seq<nat>, w: nat): (b: Bytes)
    ensures |b| == |ns| * w
  {
    if ns == [] then [] else ToBe(ns[0], w) + Packed(ns[1..], w)
  }

  function WidthFor(n: nat): nat {
    if n < 0x100 then 1 else if n < 0x1_0000 then 2 else 4
  }

  function RootObject(t: seq<Value>, es: seq<Entry>): (b: Bytes)
    requires Scalars(t) && FlatEntries(es)
    ensures b != []
  {
    var w := WidthFor(1 + |t|);
    SizeHeader(0xD0, |es|) + Packed(KeyRefs(t, es), w) + Packed(ValueRefs(t, es), w)
  }

  /** Encoded objects: the root dictionary, then the shared scalars. */
  function Objects(t: seq<Value>, es: seq<Entry>): (o: seq<Bytes>)
    requires Scalars(t) && FlatEntries(es)
    ensures |o| == 1 + |t| && forall i :: 0 <= i < |o| ==> o[i] != []
  {
    [RootObject(t, es)] + seq(|t|, i requires 0 <= i < |t| => Encode(t[i]))
  }

  function Joined(o: seq<Bytes>): Bytes {
    if o == [] then [] else Joined(o[..|o| - 1]) + o[|o| - 1]
  }

  /** Offset of object `i` in the file. */
  function OffsetOf(o: seq<Bytes>, i: nat): nat
    requires i <= |o|
  {
    |MAGIC| + |Joined(o[..i])|
  }

  function Offsets(o: seq<Bytes>): (r: seq<nat>)
    ensures |r| == |o|
  {
    seq(|o|, i requires 0 <= i < |o| => OffsetOf(o, i))
  }

  function Trailer(offSize: U8, refSize: U8, num: nat, tableOff: nat): (t: Bytes)
    ensures |t| == 32
  {
    [0, 0, 0, 0, 0, 0, offSize, refSize] + ToBe(num, 8) + ToBe(0, 8) + ToBe(tableOff, 8)
  }

  function Dump(es: seq<Entry>): Bytes
    requires FlatEntries(es)
  {
    var t := Flatten(es);
    var o := Objects(t, es);
    var body := MAGIC + Joined(o);
    var w := WidthFor(|body|);
    body + Packed(Offsets(o), w) + Trailer(w, WidthFor(|o|), |o|, |body|)
  }

  // ---- reader ----

  /** `1 << k` as far as the reader accepts it. */
  function ByteWidth(k: nat): nat {
    if k == 0 then 1 else if k == 1 then 2 else if k == 2 then 4 else if k == 3 then 8 else 16
  }

  datatype Sized = Sized(size: nat, pos: nat)

  function ReadSize(d: Bytes, pos: nat, marker: U8): Option<Sized> {
    if marker % 16 != 15 then Some(Sized(marker % 16, pos))
    else if pos >= |d| then None
    else
      var m := d[pos];
      var n := ByteWidth(m % 16);
      if m / 16 != 1 || n > 8 || pos + 1 + n > |d| then None
      else Some(Sized(FromBe(d[pos + 1..pos + 1 + n]), pos + 1 + n))
  }

  /** `n` numbers of `w` bytes each from the front of `b`. */
  function Unpack(b: Bytes, n: nat, w: nat): (r: seq<nat>)
    requires n * w <= |b|
    ensures |r| == n
  {
    if n == 0 then []
    else
      assert w <= n * w && (n - 1) * w == n * w - w;
      [FromBe(b[..w])] + Unpack(b[w..], n - 1, w)
  }

  /** The reader that refuses whatever does not fit into the data, with sums that cannot wrap around. */
  function ReadObject(d: Bytes, offs: seq<nat>, refSize: nat, ref: nat, depth: nat): Option<Value>
    decreases MAX_DEPTH - depth, 0
  {
    if ref >= |offs| || depth >= MAX_DEPTH || offs[ref] >= |d| then None
    else
      var pos := offs[ref] + 1;
      var marker := d[offs[ref]];
      match marker / 16
      case 0 => Some(if marker == 8 then Bool(false) else if marker == 9 then Bool(true) else Null)
      case 1 =>
        var n := ByteWidth(marker % 16);
        if n > 8 || pos + n > |d| then None else Some(Num(Signed64(FromBe(d[pos..pos + n]))))
      case 4 =>
        var z := ReadSize(d, pos, marker);
        if z.None? || z.value.pos + z.value.size > |d| then None
        else Some(Blob(d[z.value.pos..z.value.pos + z.value.size]))
      case 5 =>
        var z := ReadSize(d, pos, marker);
        if z.None? || z.value.pos + z.value.size > |d| then None
        else Some(Text(d[z.value.pos..z.value.pos + z.value.size]))
      case 13 =>
        var z := ReadSize(d, pos, marker);
        if z.None? || z.value.pos + z.value.size * 2 * refSize > |d| then None
        else
          var n := z.value.size;
          var refs := RefPairs(d, z.value.pos, n, refSize);
          var es := ReadEntries(d, offs, refSize, refs.0, refs.1, depth + 1);
          if es.None? then None else Some(Dict(es.value))
      case _ => None
  }

  /** The key references and the value references of a dictionary. */
  function RefPairs(d: Bytes, pos: nat, n: nat, w: nat): (r: (seq<nat>, seq<nat>))
    requires pos + n * 2 * w <= |d|
    ensures |r.0| == |r.1| == n
  {
    assert n * 2 * w == n * w + n * w;
    (Unpack(d[pos..], n, w), Unpack(d[pos + n * w..], n, w))
  }

  function ReadEntries(d: Bytes, offs: seq<nat>, refSize: nat, ks: seq<nat>, vs: seq<nat>, depth: nat)
    : Option<seq<Entry>>
    requires |ks| == |vs|
    decreases MAX_DEPTH - depth, 1 + |ks|
  {
    if ks == [] then Some([])
    else
      var n := |ks| - 1;
      var init := ReadEntries(d, offs, refSize, ks[..n], vs[..n], depth);
      if init.None? then None
      else
        var k := ReadObject(d, offs, refSize, ks[n], depth);
        if k.None? || !k.value.Text? then None
        else
          var v := ReadObject(d, offs, refSize, vs[n], depth);
          if v.None? then None else Some(Put(init.value, k.value.s, v.value))
  }

  function Load(data: Bytes): Option<Value> {
    if |data| < 40 || data[..7] != MAGIC[..7] then None
    else
      var tr := data[|data| - 32..];
      var offSize, refSize := tr[6], tr[7];
      var num, top, tableOff := FromBe(tr[8..16]), FromBe(tr[16..24]), FromBe(tr[24..32]);
      if offSize < 1 || offSize > 8 || refSize < 1 || refSize > 8 || num == 0 || num > MAX_OBJECTS then None
      else if tableOff >= |data| || tableOff + num * offSize > |data| - 32 || top >= num then None
      else
        var offs := Unpack(data[tableOff..], num, offSize);
        if exists i :: 0 <= i < |offs| && offs[i] >= tableOff then None
        else ReadObject(data, offs, refSize, top, 0)
  }

  // ---- fields read back ----

  lemma {:induction false} UnpackPacked(ns: seq<nat>, w: nat, tail: Bytes)
    requires forall i :: 0 <= i < |ns| ==> ns[i] < Pow256(w)
    ensures |ns| * w <= |Packed(ns, w) + tail|
    ensures Unpack(Packed(ns, w) + tail, |ns|, w) == ns
  {
    if ns != [] {
      var b := Packed(ns, w) + tail;
      UnpackPacked(ns[1..], w, tail);
      assert b[..w] == ToBe(ns[0], w) && b[w..] == Packed(ns[1..], w) + tail;
      FromBeToBe(ns[0], w);
    }
  }

  lemma WidthEnough(n: nat)
    requires n < 0x1_0000_0000
    ensures 1 <= WidthFor(n) <= 4 && n < Pow256(WidthFor(n))
  {
    Widths();
  }

  /** A slice of the file that holds a known encoding. */
  ghost predicate At(d: Bytes, pos: nat, e: Bytes) {
    pos + |e| <= |d| && d[pos..pos + |e|] == e
  }

  lemma AtPart(d: Bytes, pos: nat, e: Bytes, from: nat, to: nat)
    requires At(d, pos, e) && from <= to <= |e|
    ensures pos + to <= |d| && d[pos + from..pos + to] == e[from..to]
  {
    var a, b := d[pos + from..pos + to], e[from..to];
    forall i | 0 <= i < |a| ensures a[i] == b[i] {
      assert d[pos..pos + |e|][from + i] == d[pos + from + i];
    }
  }

  lemma AtByte(d: Bytes, pos: nat, e: Bytes, i: nat)
    requires At(d, pos, e) && i < |e|
    ensures pos + i < |d| && d[pos + i] == e[i]
  {
    assert d[pos..pos + |e|][i] == d[pos + i];
  }

  lemma SizeReadBack(d: Bytes, pos: nat, token: U8, size: nat)
    requires token % 16 == 0 && size < 0x1_0000_0000 && At(d, pos, SizeHeader(token, size))
    ensures pos < |d| && d[pos] / 16 == token / 16
    ensures ReadSize(d, pos + 1, d[pos]) == Some(Sized(size, pos + |SizeHeader(token, size)|))
  {
    hide FromBe, ToBe;
    var h := SizeHeader(token, size);
    AtByte(d, pos, h, 0);
    if size >= 15 {
      AtByte(d, pos, h, 1);
      AtPart(d, pos, h, 2, |h|);
      Widths();
      if size < 0x100 {
        assert h[2..3] == [size];
        FromBeByte(size);
      } else if size < 0x1_0000 {
        assert h[2..4] == ToBe(size, 2);
        FromBeToBe(size, 2);
      } else {
        assert h[2..6] == ToBe(size, 4);
        FromBeToBe(size, 4);
      }
    }
  }

  lemma FromBeByte(x: U8)
    ensures FromBe([x]) == x
  {
    assert [x][..0] == [];
  }

  lemma NumReadBack(d: Bytes, offs: seq<nat>, refSize: nat, ref: nat, depth: nat, x: int)
    requires IsScalar(Num(x)) && ref < |offs| && depth < MAX_DEPTH && At(d, offs[ref], Encode(Num(x)))
    ensures ReadObject(d, offs, refSize, ref, depth) == Some(Num(x))
  {
    hide FromBe, ToBe, ReadEntries;
    var e, pos := Encode(Num(x)), offs[ref];
    AtByte(d, pos, e, 0);
    AtPart(d, pos, e, 1, |e|);
    Widths();
    if 0 <= x < 0x100 {
      assert e[1..] == [x];
      FromBeByte(x);
    } else if 0 <= x < 0x1_0000 {
      assert e[1..] == ToBe(x, 2);
      FromBeToBe(x, 2);
    } else if 0 <= x < 0x1_0000_0000 {
      assert e[1..] == ToBe(x, 4);
      FromBeToBe(x, 4);
    } else {
      assert e[1..] == ToBe(Unsigned64(x), 8);
      FromBeToBe(Unsigned64(x), 8);
    }
  }

  lemma StringAt(d: Bytes, pos: nat, token: U8, s: Bytes)
    requires token % 16 == 0 && |s| < 0x1_0000_0000 && At(d, pos, SizeHeader(token, |s|) + s)
    ensures At(d, pos, SizeHeader(token, |s|)) && At(d, pos + |SizeHeader(token, |s|)|, s)
  {
    var h := SizeHeader(token, |s|);
    AtPart(d, pos, h + s, 0, |h|);
    AtPart(d, pos, h + s, |h|, |h| + |s|);
    assert (h + s)[0..|h|] == h && (h + s)[|h|..|h| + |s|] == s;
  }

  lemma TextReadBack(d: Bytes, offs: seq<nat>, refSize: nat, ref: nat, depth: nat, s: Bytes)
    requires IsScalar(Text(s)) && ref < |offs| && depth < MAX_DEPTH && At(d, offs[ref], Encode(Text(s)))
    ensures ReadObject(d, offs, refSize, ref, depth) == Some(Text(s))
  {
    hide ReadSize, SizeHeader, ReadEntries, RefPairs, FromBe;
    StringAt(d, offs[ref], 0x50, s);
    SizeReadBack(d, offs[ref], 0x50, |s|);
  }

  lemma BlobReadBack(d: Bytes, offs: seq<nat>, refSize: nat, ref: nat, depth: nat, b: Bytes)
    requires IsScalar(Blob(b)) && ref < |offs| && depth < MAX_DEPTH && At(d, offs[ref], Encode(Blob(b)))
    ensures ReadObject(d, offs, refSize, ref, depth) == Some(Blob(b))
  {
    hide ReadSize, SizeHeader, ReadEntries, RefPairs, FromBe;
    StringAt(d, offs[ref], 0x40, b);
    SizeReadBack(d, offs[ref], 0x40, |b|);
  }

  /** The reader returns each scalar the writer encoded. */
  lemma ScalarReadBack(d: Bytes, offs: seq<nat>, refSize: nat, ref: nat, depth: nat, v: Value)
    requires IsScalar(v) && ref < |offs| && depth < MAX_DEPTH && At(d, offs[ref], Encode(v))
    ensures ReadObject(d, offs, refSize, ref, depth) == Some(v)
  {
    hide ReadObject, Encode;
    match v
    case Num(x) => NumReadBack(d, offs, refSize, ref, depth, x);
    case Text(s) => TextReadBack(d, offs, refSize, ref, depth, s);
    case Blob(b) => BlobReadBack(d, offs, refSize, ref, depth, b);
  }

  // ---- layout ----

  lemma {:induction false} JoinedAt(o: seq<Bytes>, i: nat)
    requires i < |o|
    ensures |Joined(o[..i])| + |o[i]| <= |Joined(o)|
    ensures Joined(o)[|Joined(o[..i])|..|Joined(o[..i])| + |o[i]|] == o[i]
    decreases |o|
  {
    var n := |o| - 1;
    if i < n {
      JoinedAt(o[..n], i);
      assert o[..n][..i] == o[..i];
    }
  }

  /** Every shared scalar can be found, and finding it gives it back. */
  lemma {:induction false} FindsItself(t: seq<Value>, v: Value)
    requires Scalars(t) && IsScalar(v) && v in t
    ensures Find(t, v) < |t| && t[Find(t, v)] == v
  {
    hide Repr;
    if t[0] != v {
      FindsItself(t[1..], v);
    }
    FindMatches(t, v);
    ReprInjective(t[Find(t, v)], v);
  }

  lemma AddSharedHas(t: seq<Value>, v: Value)
    requires Scalars(t) && IsScalar(v)
    ensures v in AddShared(t, v)
  {
    hide Repr;
    var i := Find(t, v);
    if i < |t| {
      FindMatches(t, v);
      ReprInjective(t[i], v);
    }
  }

  lemma {:induction false} AddKeysHas(t: seq<Value>, es: seq<Entry>, i: nat)
    requires Scalars(t) && FlatEntries(es) && i < |es|
    ensures Text(es[i].key) in AddKeys(t, es)
    decreases |es|
  {
    hide AddShared, Find;
    var n := |es| - 1;
    if i < n {
      AddKeysHas(t, es[..n], i);
    } else {
      AddSharedHas(AddKeys(t, es[..n]), Text(es[n].key));
    }
  }

  lemma {:induction false} AddValuesHas(t: seq<Value>, es: seq<Entry>, i: nat)
    requires Scalars(t) && FlatEntries(es) && i < |es|
    ensures es[i].value in AddValues(t, es)
    decreases |es|
  {
    hide AddShared, Find;
    var n := |es| - 1;
    if i < n {
      AddValuesHas(t, es[..n], i);
    } else {
      AddSharedHas(AddValues(t, es[..n]), es[n].value);
    }
  }

  lemma RefsFind(es: seq<Entry>, i: nat)
    requires FlatEntries(es) && i < |es|
    ensures var t := Flatten(es);
            && 1 <= KeyRefs(t, es)[i] <= |t| && t[KeyRefs(t, es)[i] - 1] == Text(es[i].key)
            && 1 <= ValueRefs(t, es)[i] <= |t| && t[ValueRefs(t, es)[i] - 1] == es[i].value
  {
    hide AddShared, Find, AddKeys, AddValues;
    var t := Flatten(es);
    AddKeysHas([], es, i);
    AddValuesHas(AddKeys([], es), es, i);
    FindsItself(t, Text(es[i].key));
    FindsItself(t, es[i].value);
  }

  // ---- the round trip ----

  /** Within the reader's limits: at most 100000 objects and 32-bit offsets. */
  ghost predicate Writable(es: seq<Entry>) {
    && FlatEntries(es) && Sorted(es)
    && 1 + |Flatten(es)| <= MAX_OBJECTS
    && |MAGIC + Joined(Objects(Flatten(es), es))| < 0x1_0000_0000
  }

  lemma OffsetsInside(o: seq<Bytes>, i: nat)
    requires i < |o| && o[i] != []
    ensures OffsetOf(o, i) < |MAGIC + Joined(o)| && At(MAGIC + Joined(o), OffsetOf(o, i), o[i])
  {
    JoinedAt(o, i);
    var j, d := |Joined(o[..i])|, MAGIC + Joined(o);
    assert d[|MAGIC| + j..|MAGIC| + j + |o[i]|] == Joined(o)[j..j + |o[i]|];
  }

  lemma AtExtends(d: Bytes, more: Bytes, pos: nat, e: Bytes)
    requires At(d, pos, e)
    ensures At(d + more, pos, e)
  {
    assert (d + more)[pos..pos + |e|] == d[pos..pos + |e|];
  }

  /** Reading the entries back reference by reference rebuilds the dictionary in key order. */
  lemma {:induction false} EntriesReadBack(d: Bytes, offs: seq<nat>, refSize: nat, ks: seq<nat>, vs: seq<nat>,
                                           es: seq<Entry>)
    requires Sorted(es) && |ks| == |vs| == |es|
    requires forall i :: 0 <= i < |es| ==>
               && ReadObject(d, offs, refSize, ks[i], 1) == Some(Text(es[i].key))
               && ReadObject(d, offs, refSize, vs[i], 1) == Some(es[i].value)
    ensures ReadEntries(d, offs, refSize, ks, vs, 1) == Some(es)
    decreases |es|
  {
    hide ReadObject, Less, Put;
    if es != [] {
      var n := |es| - 1;
      EntriesReadBack(d, offs, refSize, ks[..n], vs[..n], es[..n]);
      PutSorted(es);
    }
  }

  lemma PutSorted(es: seq<Entry>)
    requires es != [] && Sorted(es)
    ensures var n := |es| - 1; Put(es[..n], es[n].key, es[n].value) == es
  {
    hide Less, Put;
    var n := |es| - 1;
    PutLast(es[..n], es[n].key, es[n].value);
    assert es == es[..n] + [Entry(es[n].key, es[n].value)];
  }

  /** The dictionary at offset 0 of the table reads back, given its scalars do. */
  lemma RootReadBack(d: Bytes, offs: seq<nat>, es: seq<Entry>)
    requires Writable(es) && offs != [] && At(d, offs[0], RootObject(Flatten(es), es))
    requires forall i :: 0 <= i < |es| ==>
               var t := Flatten(es);
               var w := WidthFor(1 + |t|);
               && ReadObject(d, offs, w, KeyRefs(t, es)[i], 1) == Some(Text(es[i].key))
               && ReadObject(d, offs, w, ValueRefs(t, es)[i], 1) == Some(es[i].value)
    ensures ReadObject(d, offs, WidthFor(1 + |Flatten(es)|), 0, 0) == Some(Dict(es))
  {
    hide Flatten, KeyRefs, ValueRefs, ReadSize, SizeHeader, Packed, Unpack, ReadEntries, FromBe;
    var t := Flatten(es);
    var w := WidthFor(1 + |t|);
    var ks, vs := KeyRefs(t, es), ValueRefs(t, es);
    var h, pk, pv := SizeHeader(0xD0, |es|), Packed(ks, w), Packed(vs, w);
    var pos := offs[0];
    RootParts(d, pos, t, es);
    EntryCount(es);
    SizeReadBack(d, pos, 0xD0, |es|);
    RefsReadBack(d, pos + |h|, es, t);
    EntriesReadBack(d, offs, w, ks, vs, es);
  }

  lemma EntryCount(es: seq<Entry>)
    requires Writable(es)
    ensures |es| < 0x1_0000_0000
  {
    hide Flatten;
    var t := Flatten(es);
    var o := Objects(t, es);
    JoinedAt(o, 0);
    var w := WidthFor(1 + |t|);
    assert |Packed(KeyRefs(t, es), w)| == |es| * w >= |es|;
  }

  lemma RootParts(d: Bytes, pos: nat, t: seq<Value>, es: seq<Entry>)
    requires Scalars(t) && FlatEntries(es) && At(d, pos, RootObject(t, es))
    ensures var h, w := SizeHeader(0xD0, |es|), WidthFor(1 + |t|);
            && At(d, pos, h)
            && At(d, pos + |h|, Packed(KeyRefs(t, es), w))
            && At(d, pos + |h| + |es| * w, Packed(ValueRefs(t, es), w))
  {
    hide KeyRefs, ValueRefs, Packed, SizeHeader;
    var h, w := SizeHeader(0xD0, |es|), WidthFor(1 + |t|);
    var pk, pv := Packed(KeyRefs(t, es), w), Packed(ValueRefs(t, es), w);
    var e := h + pk + pv;
    AtPart(d, pos, e, 0, |h|);
    AtPart(d, pos, e, |h|, |h| + |pk|);
    AtPart(d, pos, e, |h| + |pk|, |e|);
    assert e[0..|h|] == h && e[|h|..|h| + |pk|] == pk && e[|h| + |pk|..|e|] == pv;
  }

  lemma RefsReadBack(d: Bytes, pos: nat, es: seq<Entry>, t: seq<Value>)
    requires FlatEntries(es) && t == Flatten(es) && 1 + |t| <= MAX_OBJECTS
    requires var w := WidthFor(1 + |t|);
             At(d, pos, Packed(KeyRefs(t, es), w)) && At(d, pos + |es| * w, Packed(ValueRefs(t, es), w))
    ensures var w := WidthFor(1 + |t|);
            pos + |es| * 2 * w <= |d| && RefPairs(d, pos, |es|, w) == (KeyRefs(t, es), ValueRefs(t, es))
  {
    hide Flatten, KeyRefs, ValueRefs, Packed, Unpack, WidthFor;
    var w := WidthFor(1 + |t|);
    var ks, vs := KeyRefs(t, es), ValueRefs(t, es);
    WidthEnough(1 + |t|);
    forall i | 0 <= i < |es| ensures ks[i] < Pow256(w) && vs[i] < Pow256(w) {
      RefsFind(es, i);
    }
    assert |es| * 2 * w == |es| * w + |es| * w;
    UnpackAt(d, pos, ks, w);
    UnpackAt(d, pos + |es| * w, vs, w);
  }

  lemma UnpackAt(d: Bytes, pos: nat, ns: seq<nat>, w: nat)
    requires At(d, pos, Packed(ns, w)) && forall i :: 0 <= i < |ns| ==> ns[i] < Pow256(w)
    ensures |ns| * w <= |d[pos..]| && Unpack(d[pos..], |ns|, w) == ns
  {
    hide Packed, Unpack;
    var p := Packed(ns, w);
    UnpackPacked(ns, w, d[pos + |p|..]);
    assert d[pos..] == p + d[pos + |p|..];
  }

  lemma TrailerReadBack(offSize: U8, refSize: U8, num: nat, tableOff: nat)
    requires num < 0x1_0000_0000_0000_0000 && tableOff < 0x1_0000_0000_0000_0000
    ensures var t := Trailer(offSize, refSize, num, tableOff);
            && t[6] == offSize && t[7] == refSize
            && FromBe(t[8..16]) == num && FromBe(t[16..24]) == 0 && FromBe(t[24..32]) == tableOff
  {
    hide FromBe, ToBe;
    var t := Trailer(offSize, refSize, num, tableOff);
    Widths();
    assert t[8..16] == ToBe(num, 8) && t[16..24] == ToBe(0, 8) && t[24..32] == ToBe(tableOff, 8);
    FromBeToBe(num, 8);
    FromBeToBe(0, 8);
    FromBeToBe(tableOff, 8);
  }

  /** Everything the root's references point to reads back. */
  lemma ReferencedReadBack(es: seq<Entry>, d: Bytes, i: nat)
    requires Writable(es) && i < |es|
    requires var o := Objects(Flatten(es), es);
             forall j :: 0 <= j < |o| ==> At(d, Offsets(o)[j], o[j])
    ensures var t := Flatten(es);
            var offs, w := Offsets(Objects(t, es)), WidthFor(1 + |t|);
            && ReadObject(d, offs, w, KeyRefs(t, es)[i], 1) == Some(Text(es[i].key))
            && ReadObject(d, offs, w, ValueRefs(t, es)[i], 1) == Some(es[i].value)
  {
    hide Flatten, KeyRefs, ValueRefs, Encode, ReadObject, Offsets, RootObject, Joined;
    var t := Flatten(es);
    var o := Objects(t, es);
    var k, v := KeyRefs(t, es)[i], ValueRefs(t, es)[i];
    RefsFind(es, i);
    assert o[k] == Encode(t[k - 1]) && o[v] == Encode(t[v - 1]);
    ScalarReadBack(d, Offsets(o), WidthFor(1 + |t|), k, 1, t[k - 1]);
    ScalarReadBack(d, Offsets(o), WidthFor(1 + |t|), v, 1, t[v - 1]);
  }

  /** Where everything lies in the file. */
  lemma FileLayout(es: seq<Entry>)
    requires Writable(es)
    ensures var o := Objects(Flatten(es), es);
            var d, n := Dump(es), |MAGIC + Joined(o)|;
            && n + |o| * WidthFor(n) + 32 == |d| && n >= 9
            && d[..8] == MAGIC
            && d[|d| - 32..] == Trailer(WidthFor(n), WidthFor(|o|), |o|, n)
            && At(d, n, Packed(Offsets(o), WidthFor(n)))
            && (forall j :: 0 <= j < |o| ==> At(d, Offsets(o)[j], o[j]) && Offsets(o)[j] < n)
  {
    hide Flatten, Packed, Objects, Trailer;
    var o := Objects(Flatten(es), es);
    var body := MAGIC + Joined(o);
    var n := |body|;
    var table, trailer := Packed(Offsets(o), WidthFor(n)), Trailer(WidthFor(n), WidthFor(|o|), |o|, n);
    var d := body + table + trailer;
    assert d[|d| - 32..] == trailer && d[n..n + |table|] == table;
    forall j | 0 <= j < |o| ensures At(d, Offsets(o)[j], o[j]) && Offsets(o)[j] < n {
      OffsetsInside(o, j);
      AtExtends(body, table + trailer, OffsetOf(o, j), o[j]);
      assert body + (table + trailer) == d;
    }
    assert Offsets(o)[0] < n;
  }

  /** The round trip: what the writer dumps, the reader loads back, entry for entry. */
  lemma LoadDump(es: seq<Entry>)
    requires Writable(es)
    ensures Load(Dump(es)) == Some(Dict(es))
  {
    hide Flatten, Packed, Unpack, Joined, ReadObject, Dump, Encode, RootObject;
    hide FromBe, KeyRefs, ValueRefs, Offsets, Trailer, Pow256;
    var t := Flatten(es);
    var o := Objects(t, es);
    var d, n, offs := Dump(es), |MAGIC + Joined(o)|, Offsets(o);
    FileLayout(es);
    TrailerReadBack(WidthFor(n), WidthFor(|o|), |o|, n);
    WidthEnough(n);
    WidthEnough(|o|);
    assert d[..7] == d[..8][..7];
    UnpackAt(d, n, offs, WidthFor(n));
    forall i | 0 <= i < |es|
      ensures && ReadObject(d, offs, WidthFor(1 + |t|), KeyRefs(t, es)[i], 1) == Some(Text(es[i].key))
              && ReadObject(d, offs, WidthFor(1 + |t|), ValueRefs(t, es)[i], 1) == Some(es[i].value)
    {
      ReferencedReadBack(es, d, i);
    }
    assert o[0] == RootObject(t, es) && At(d, offs[0], o[0]);
    RootReadBack(d, offs, es);
  }

  // ---- the procedures ----

  method ShareScalars(es: seq<Entry>) returns (t: seq<Value>)
    requires FlatEntries(es)
    ensures t == Flatten(es)
  {
    hide AddShared;
    t := [];
    for i := 0 to |es|
      invariant Scalars(t) && t == AddKeys([], es[..i])
    {
      assert es[..i + 1][..i] == es[..i];
      t := AddShared(t, Text(es[i].key));
    }
    assert es[..|es|] == es;
    ghost var keys := t;
    for i := 0 to |es|
      invariant Scalars(t) && t == AddValues(keys, es[..i])
    {
      assert es[..i + 1][..i] == es[..i];
      t := AddShared(t, es[i].value);
    }
  }

  /** `write_object` for every object in turn, with the offsets noted on the way. */
  method WriteObjects(o: seq<Bytes>) returns (out: Bytes, offsets: seq<nat>)
    ensures out == MAGIC + Joined(o) && offsets == Offsets(o)
  {
    out, offsets := MAGIC, [];
    for i := 0 to |o|
      invariant out == MAGIC + Joined(o[..i])
      invariant |offsets| == i && forall j :: 0 <= j < i ==> offsets[j] == OffsetOf(o, j)
    {
      assert o[..i + 1][..i] == o[..i];
      offsets := offsets + [|out|];
      out := out + o[i];
    }
    assert o[..|o|] == o;
  }

  method WriteTable(ns: seq<nat>, w: nat) returns (out: Bytes)
    ensures out == Packed(ns, w)
  {
    out := [];
    for i := 0 to |ns|
      invariant out + Packed(ns[i..], w) == Packed(ns, w)
    {
      assert ns[i..][1..] == ns[i + 1..];
      assert out + (ToBe(ns[i], w) + Packed(ns[i + 1..], w)) == (out + ToBe(ns[i], w)) + Packed(ns[i + 1..], w);
      out := out + ToBe(ns[i], w);
    }
    assert ns[|ns|..] == [];
  }

  method WriteFile(es: seq<Entry>) returns (out: Bytes)
    requires FlatEntries(es)
    ensures out == Dump(es)
    ensures Writable(es) ==> Load(out) == Some(Dict(es))
  {
    hide Flatten, Packed, Joined, Objects, Load, Writable, Offsets;
    var t := ShareScalars(es);
    var objects := Objects(t, es);
    var offsets;
    out, offsets := WriteObjects(objects);
    var tableOff := |out|;
    var w := WidthFor(tableOff);
    var table := WriteTable(offsets, w);
    out := out + table + Trailer(w, WidthFor(|objects|), |objects|, tableOff);
    if Writable(es) {
      LoadDump(es);
    }
  }
}
