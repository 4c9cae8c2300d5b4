/**
 Property lists of any writer: booleans, nested dictionaries with their keys in any order, numbers and sizes in any
 of the widths, references and offsets of any size. What the reader makes of them: src/protocol/bplist.cpp:136-208.
 */
module BplistForeign {
  import opened Wire
  import opened Bytes
  import opened Bplist
  import Reader = BplistReader

  // ---- dictionaries: sorted, the last value of a key wins ----

  /** The entries put into an empty dictionary one after the other. */
  function PutAll(es: seq<Entry>): seq<Entry> {
    if es == [] then [] else Put(PutAll(es[..|es| - 1]), es[|es| - 1].key, es[|es| - 1].value)
  }

  ghost predicate Holds(es: seq<Entry>, k: Bytes, v: Value) {
    exists i :: 0 <= i < |es| && es[i] == Entry(k, v)
  }

  ghost predicate HasKey(es: seq<Entry>, k: Bytes) {
    exists i :: 0 <= i < |es| && es[i].key == k
  }

  lemma LessTotal(a: Bytes, b: Bytes)
    ensures a == b || Less(a, b) || Less(b, a)
  {
    if a != [] && b != [] && a[0] == b[0] {
      LessTotal(a[1..], b[1..]);
      assert a == [a[0]] + a[1..] && b == [b[0]] + b[1..];
    }
  }

  lemma LessTransitive(a: Bytes, b: Bytes, c: Bytes)
    requires Less(a, b) && Less(b, c)
    ensures Less(a, c)
  {
  }

  lemma {:induction false} PutSorted(es: seq<Entry>, k: Bytes, v: Value)
    requires Sorted(es)
    ensures Sorted(Put(es, k, v))
    ensures forall i :: 0 <= i < |Put(es, k, v)| ==> Put(es, k, v)[i].key == k || HasKey(es, Put(es, k, v)[i].key)
  {
    hide Less;
    var r := Put(es, k, v);
    if es == [] {
    } else if Less(k, es[0].key) {
      forall i | 0 < i < |r| ensures Less(k, r[i].key) && HasKey(es, r[i].key) {
        assert r[i] == es[i - 1];
        if i > 1 {
          LessTransitive(k, es[0].key, es[i - 1].key);
        }
      }
    } else if es[0].key == k {
      forall i | 0 <= i < |r| ensures r[i].key == es[i].key && HasKey(es, r[i].key) {
      }
    } else {
      LessTotal(es[0].key, k);
      var rest := Put(es[1..], k, v);
      PutSorted(es[1..], k, v);
      forall i | 0 <= i < |rest| ensures Less(es[0].key, rest[i].key) && (rest[i].key == k || HasKey(es, rest[i].key)) {
        if rest[i].key != k {
          var j :| 0 <= j < |es[1..]| && es[1..][j].key == rest[i].key;
          assert es[j + 1].key == rest[i].key;
        }
      }
      assert HasKey(es, es[0].key);
    }
  }

  lemma {:induction false} PutHolds(es: seq<Entry>, k: Bytes, v: Value, k': Bytes, v': Value)
    requires Sorted(es)
    ensures Holds(Put(es, k, v), k', v') <==> if k' == k then v' == v else Holds(es, k', v')
  {
    hide Less;
    var r := Put(es, k, v);
    if es == [] {
      assert r == [Entry(k, v)] + [];
      HoldsCons(Entry(k, v), [], k', v');
    } else if Less(k, es[0].key) {
      HoldsCons(Entry(k, v), es, k', v');
      if k' == k && Holds(es, k, v') {
        KeyBefore(es, k);
      }
    } else if es[0].key == k {
      HoldsCons(Entry(k, v), es[1..], k', v');
      HoldsCons(es[0], es[1..], k', v');
      assert es == [es[0]] + es[1..];
      if k' == k && Holds(es[1..], k, v') {
        KeyOnce(es, v');
      }
    } else {
      PutHolds(es[1..], k, v, k', v');
      HoldsCons(es[0], Put(es[1..], k, v), k', v');
      HoldsCons(es[0], es[1..], k', v');
      assert es == [es[0]] + es[1..];
    }
  }

  lemma HoldsCons(e: Entry, es: seq<Entry>, k: Bytes, v: Value)
    ensures Holds([e] + es, k, v) <==> e == Entry(k, v) || Holds(es, k, v)
  {
    var r := [e] + es;
    if i :| 0 <= i < |r| && r[i] == Entry(k, v) {
      assert i > 0 ==> es[i - 1] == Entry(k, v);
    }
    if i :| 0 <= i < |es| && es[i] == Entry(k, v) {
      assert r[i + 1] == Entry(k, v);
    }
    assert r[0] == e;
  }

  /** A key before the first one is not among them. */
  lemma KeyBefore(es: seq<Entry>, k: Bytes)
    requires Sorted(es) && es != [] && Less(k, es[0].key)
    ensures !HasKey(es, k)
  {
    hide Less;
    if i :| 0 <= i < |es| && es[i].key == k {
      assert i > 0 ==> Less(es[0].key, es[i].key);
      LessAsymmetric(k, es[0].key);
    }
  }

  lemma KeyOnce(es: seq<Entry>, v: Value)
    requires Sorted(es) && es != []
    ensures !Holds(es[1..], es[0].key, v)
  {
    hide Less;
    if i :| 0 <= i < |es[1..]| && es[1..][i] == Entry(es[0].key, v) {
      assert es[i + 1] == es[1..][i];
      LessAsymmetric(es[0].key, es[i + 1].key);
    }
  }

  /** The value of the last entry with the key. */
  ghost function LastValue(es: seq<Entry>, k: Bytes): Option<Value> {
    if es == [] then None
    else if es[|es| - 1].key == k then Some(es[|es| - 1].value)
    else LastValue(es[..|es| - 1], k)
  }

  /** Keys in any order, repeated or not: the dictionary is sorted and holds the last value of each key. */
  lemma {:induction false} PutAllIs(es: seq<Entry>, k: Bytes, v: Value)
    ensures Sorted(PutAll(es)) && (Holds(PutAll(es), k, v) <==> LastValue(es, k) == Some(v))
  {
    hide Less, Put, Holds;
    if es == [] {
      assert !Holds([], k, v) by { NothingHeld(k, v); }
    } else {
      var init, e := es[..|es| - 1], es[|es| - 1];
      PutAllIs(init, k, v);
      PutSorted(PutAll(init), e.key, e.value);
      PutHolds(PutAll(init), e.key, e.value, k, v);
    }
  }

  lemma NothingHeld(k: Bytes, v: Value)
    ensures !Holds([], k, v)
  {
  }

  // ---- objects as the format has them ----

  /** A size in the marker's low four bits, or behind it in 1, 2, 4 or 8 bytes. */
  datatype Form = Short | Long(e: nat)

  predicate FormFits(f: Form, n: nat) {
    match f
    case Short => n < 15
    case Long(e) => e < 4 && n < Pow256(ByteWidth(e))
  }

  function SizeBytes(token: U8, n: nat, f: Form): Bytes
    requires token % 16 == 0 && FormFits(f, n)
  {
    match f
    case Short => [token + n]
    case Long(e) => [token + 15, 16 + e] + ToBe(n, ByteWidth(e))
  }

  /** An integer in 1, 2 or 4 bytes without a sign, or in 8 bytes with one. */
  predicate NumFits(i: int, e: nat) {
    if e < 3 then 0 <= i < Pow256(ByteWidth(e))
    else e == 3 && -0x8000_0000_0000_0000 <= i < 0x8000_0000_0000_0000
  }

  function NumBytes(i: int, e: nat): Bytes
    requires NumFits(i, e)
  {
    [16 + e] + ToBe(if i >= 0 then i else i + 0x1_0000_0000_0000_0000, ByteWidth(e))
  }

  ghost predicate SizedAt(d: Bytes, at: nat, token: U8, f: Form, s: Bytes)
    requires token % 16 == 0
  {
    FormFits(f, |s|) && At(d, at, SizeBytes(token, |s|, f) + s)
  }

  ghost predicate TextAt(d: Bytes, at: nat, s: Bytes) {
    exists f :: SizedAt(d, at, 0x50, f, s)
  }

  ghost predicate BlobAt(d: Bytes, at: nat, s: Bytes) {
    exists f :: SizedAt(d, at, 0x40, f, s)
  }

  ghost predicate NumAt(d: Bytes, at: nat, i: int) {
    exists e: nat :: NumFits(i, e) && At(d, at, NumBytes(i, e))
  }

  ghost predicate Refs(ns: seq<nat>, n: nat, w: nat) {
    |ns| == n && forall i :: 0 <= i < |ns| ==> ns[i] < Pow256(w)
  }

  ghost predicate DictAt(d: Bytes, at: nat, w: nat, f: Form, ks: seq<nat>, vs: seq<nat>) {
    && FormFits(f, |ks|) && Refs(ks, |ks|, w) && Refs(vs, |ks|, w)
    && At(d, at, SizeBytes(0xD0, |ks|, f) + (Packed(ks, w) + Packed(vs, w)))
  }

  /** Object `ref` of the file is `v`, its dictionaries with their entries in the order of the file. */
  ghost predicate Placed(d: Bytes, offs: seq<nat>, w: nat, ref: nat, v: Value, depth: nat)
    decreases v
  {
    && ref < |offs| && depth < MAX_DEPTH
    && match v
       case Null => At(d, offs[ref], [0])
       case Bool(b) => At(d, offs[ref], [if b then 9 else 8])
       case Num(i) => NumAt(d, offs[ref], i)
       case Text(s) => TextAt(d, offs[ref], s)
       case Blob(s) => BlobAt(d, offs[ref], s)
       case Dict(es) =>
         exists f, ks, vs :: DictAt(d, offs[ref], w, f, ks, vs) && |ks| == |es| &&
           forall i :: 0 <= i < |es| ==>
             KeyPlaced(d, offs, ks[i], es[i].key, depth + 1) && Placed(d, offs, w, vs[i], es[i].value, depth + 1)
  }

  ghost predicate KeyPlaced(d: Bytes, offs: seq<nat>, ref: nat, k: Bytes, depth: nat) {
    ref < |offs| && depth < MAX_DEPTH && TextAt(d, offs[ref], k)
  }

  /** The same value with every dictionary sorted and the last of repeated keys kept. */
  function Normal(v: Value): Value
    decreases v, 0
  {
    match v
    case Dict(es) => Dict(PutAll(NormalAll(es)))
    case _ => v
  }

  function NormalAll(es: seq<Entry>): (r: seq<Entry>)
    ensures |r| == |es|
    decreases es, 1
  {
    seq(|es|, i requires 0 <= i < |es| => Entry(es[i].key, Normal(es[i].value)))
  }

  // ---- each object is read back ----

  lemma FirstOf(d: Bytes, at: nat, a: Bytes, b: Bytes)
    requires At(d, at, a + b)
    ensures At(d, at, a) && At(d, at + |a|, b)
  {
    AtPart(d, at, a + b, 0, |a|);
    AtPart(d, at, a + b, |a|, |a + b|);
    assert (a + b)[0..|a|] == a && (a + b)[|a|..|a + b|] == b;
  }

  lemma SizeBack(d: Bytes, at: nat, token: U8, n: nat, f: Form)
    requires token % 16 == 0 && FormFits(f, n) && At(d, at, SizeBytes(token, n, f))
    ensures at < |d| && d[at] / 16 == token / 16
    ensures ReadSize(d, at + 1, d[at]) == Some(Sized(n, at + |SizeBytes(token, n, f)|))
  {
    hide FromBe, ToBe;
    var h := SizeBytes(token, n, f);
    AtByte(d, at, h, 0);
    if f.Long? {
      var w := ByteWidth(f.e);
      AtByte(d, at, h, 1);
      AtPart(d, at, h, 2, |h|);
      assert h[2..|h|] == ToBe(n, w);
      assert (16 + f.e) % 16 == f.e && (16 + f.e) / 16 == 1;
      assert (token + 15) / 16 == token / 16 && (token + 15) % 16 == 15;
      FromBeToBe(n, w);
    } else {
      assert (token + n) / 16 == token / 16 && (token + n) % 16 == n;
    }
  }

  lemma TextBack(d: Bytes, offs: seq<nat>, w: nat, ref: nat, s: Bytes, depth: nat)
    requires KeyPlaced(d, offs, ref, s, depth)
    ensures ReadObject(d, offs, w, ref, depth) == Some(Text(s))
  {
    hide ReadSize, FromBe, SizeBytes;
    var at := offs[ref];
    var f :| SizedAt(d, at, 0x50, f, s);
    FirstOf(d, at, SizeBytes(0x50, |s|, f), s);
    SizeBack(d, at, 0x50, |s|, f);
  }

  lemma BlobBack(d: Bytes, offs: seq<nat>, w: nat, ref: nat, s: Bytes, depth: nat)
    requires ref < |offs| && depth < MAX_DEPTH && BlobAt(d, offs[ref], s)
    ensures ReadObject(d, offs, w, ref, depth) == Some(Blob(s))
  {
    hide ReadSize, FromBe, SizeBytes;
    var at := offs[ref];
    var f :| SizedAt(d, at, 0x40, f, s);
    FirstOf(d, at, SizeBytes(0x40, |s|, f), s);
    SizeBack(d, at, 0x40, |s|, f);
  }

  lemma NumBack(d: Bytes, offs: seq<nat>, w: nat, ref: nat, i: int, depth: nat)
    requires ref < |offs| && depth < MAX_DEPTH && NumAt(d, offs[ref], i)
    ensures ReadObject(d, offs, w, ref, depth) == Some(Num(i))
  {
    hide ReadSize, FromBe, ToBe;
    var at := offs[ref];
    var e: nat :| NumFits(i, e) && At(d, at, NumBytes(i, e));
    var b, n := NumBytes(i, e), ByteWidth(e);
    var u := if i >= 0 then i else i + 0x1_0000_0000_0000_0000;
    AtByte(d, at, b, 0);
    AtPart(d, at, b, 1, |b|);
    assert b[1..|b|] == ToBe(u, n);
    assert (16 + e) / 16 == 1 && (16 + e) % 16 == e;
    Widths();
    FromBeToBe(u, n);
  }

  lemma SmallBack(d: Bytes, offs: seq<nat>, w: nat, ref: nat, b: U8, depth: nat)
    requires ref < |offs| && depth < MAX_DEPTH && At(d, offs[ref], [b]) && b < 16
    ensures ReadObject(d, offs, w, ref, depth)
         == Some(if b == 8 then Bool(false) else if b == 9 then Bool(true) else Null)
  {
    AtByte(d, offs[ref], [b], 0);
  }

  lemma RefsBack(d: Bytes, pos: nat, w: nat, ks: seq<nat>, vs: seq<nat>)
    requires Refs(ks, |ks|, w) && Refs(vs, |ks|, w) && At(d, pos, Packed(ks, w) + Packed(vs, w))
    ensures pos + |ks| * 2 * w <= |d| && RefPairs(d, pos, |ks|, w) == (ks, vs)
  {
    hide Packed, Unpack, At;
    var n := |ks|;
    TwiceSize(n, w);
    FirstOf(d, pos, Packed(ks, w), Packed(vs, w));
    AtFits(d, pos + n * w, Packed(vs, w));
    UnpackAt(d, pos, ks, w);
    UnpackAt(d, pos + n * w, vs, w);
  }

  lemma TwiceSize(n: nat, w: nat)
    ensures n * 2 * w == n * w + n * w
  {
  }

  lemma AtFits(d: Bytes, pos: nat, e: Bytes)
    requires At(d, pos, e)
    ensures pos + |e| <= |d|
  {
  }

  lemma {:induction false} EntriesBack(d: Bytes, offs: seq<nat>, w: nat, ks: seq<nat>, vs: seq<nat>, es: seq<Entry>,
                                       depth: nat, n: nat)
    requires |ks| == |vs| == |es| && n <= |es|
    requires forall i :: 0 <= i < |es| ==>
               KeyPlaced(d, offs, ks[i], es[i].key, depth) && Placed(d, offs, w, vs[i], es[i].value, depth)
    ensures ReadEntries(d, offs, w, ks[..n], vs[..n], depth) == Some(PutAll(NormalAll(es)[..n]))
    decreases es, n
  {
    hide ReadObject, Placed, KeyPlaced, Put, Normal;
    if n > 0 {
      var m := n - 1;
      EntriesBack(d, offs, w, ks, vs, es, depth, m);
      TextBack(d, offs, w, ks[m], es[m].key, depth);
      ObjectBack(d, offs, w, vs[m], es[m].value, depth);
      assert ks[..n][..m] == ks[..m] && vs[..n][..m] == vs[..m];
      assert NormalAll(es)[..n][..m] == NormalAll(es)[..m];
    }
  }

  /** The parts of a placed dictionary. */
  lemma DictParts(d: Bytes, offs: seq<nat>, w: nat, ref: nat, es: seq<Entry>, depth: nat)
    returns (f: Form, ks: seq<nat>, vs: seq<nat>)
    requires Placed(d, offs, w, ref, Dict(es), depth)
    ensures ref < |offs| && depth < MAX_DEPTH && DictAt(d, offs[ref], w, f, ks, vs) && |ks| == |vs| == |es|
    ensures forall i :: 0 <= i < |es| ==>
              KeyPlaced(d, offs, ks[i], es[i].key, depth + 1) && Placed(d, offs, w, vs[i], es[i].value, depth + 1)
  {
    hide TextAt, At, Packed, SizeBytes, FormFits;
    f, ks, vs :| DictAt(d, offs[ref], w, f, ks, vs) && |ks| == |es| &&
      forall i :: 0 <= i < |es| ==>
        KeyPlaced(d, offs, ks[i], es[i].key, depth + 1) && Placed(d, offs, w, vs[i], es[i].value, depth + 1);
  }

  lemma NoDict(d: Bytes, offs: seq<nat>, w: nat, ref: nat, v: Value, depth: nat)
    requires Placed(d, offs, w, ref, v, depth) && !v.Dict?
    ensures ReadObject(d, offs, w, ref, depth) == Some(v)
  {
    hide ReadObject, TextAt, BlobAt, NumAt, At;
    match v
    case Null => SmallBack(d, offs, w, ref, 0, depth);
    case Bool(b) => SmallBack(d, offs, w, ref, if b then 9 else 8, depth);
    case Num(i) => NumBack(d, offs, w, ref, i, depth);
    case Text(s) => TextBack(d, offs, w, ref, s, depth);
    case Blob(s) => BlobBack(d, offs, w, ref, s, depth);
  }

  /** Every object that is placed in the file is read back, with its dictionaries in order. */
  lemma {:induction false} ObjectBack(d: Bytes, offs: seq<nat>, w: nat, ref: nat, v: Value, depth: nat)
    requires Placed(d, offs, w, ref, v, depth)
    ensures ReadObject(d, offs, w, ref, depth) == Some(Normal(v))
    decreases v, 0
  {
    hide ReadObject, Placed, KeyPlaced, DictAt, PutAll, NormalAll, ReadEntries;
    if v.Dict? {
      var es := v.entries;
      var f, ks, vs := DictParts(d, offs, w, ref, es, depth);
      EntriesBack(d, offs, w, ks, vs, es, depth + 1, |es|);
      assert ks[..|es|] == ks && vs[..|es|] == vs && NormalAll(es)[..|es|] == NormalAll(es);
      DictBack(d, offs, w, ref, f, ks, vs, PutAll(NormalAll(es)), depth);
    } else {
      NoDict(d, offs, w, ref, v, depth);
    }
  }

  lemma DictBack(d: Bytes, offs: seq<nat>, w: nat, ref: nat, f: Form, ks: seq<nat>, vs: seq<nat>, es: seq<Entry>,
                 depth: nat)
    requires ref < |offs| && depth < MAX_DEPTH && DictAt(d, offs[ref], w, f, ks, vs)
    requires ReadEntries(d, offs, w, ks, vs, depth + 1) == Some(es)
    ensures ReadObject(d, offs, w, ref, depth) == Some(Dict(es))
  {
    hide ReadSize, FromBe, SizeBytes, ReadEntries, RefPairs, Packed, Refs;
    var at, n := offs[ref], |ks|;
    var h := SizeBytes(0xD0, n, f);
    FirstOf(d, at, h, Packed(ks, w) + Packed(vs, w));
    SizeBack(d, at, 0xD0, n, f);
    RefsBack(d, at + |h|, w, ks, vs);
  }

  // ---- files ----

  /** The trailer; its first six bytes are not looked at. */
  function AnyTrailer(lead: Bytes, offSize: U8, refSize: U8, num: nat, top: nat, tableOff: nat): Bytes {
    lead + [offSize, refSize] + ToBe(num, 8) + ToBe(top, 8) + ToBe(tableOff, 8)
  }

  /** A file of any writer: `body` with the magic and the objects, a table of offsets of any width, the trailer. */
  ghost predicate FileOf(data: Bytes, body: Bytes, offs: seq<nat>, offSize: U8, refSize: U8, top: nat, lead: Bytes) {
    && 8 <= |body| < 0x1_0000_0000_0000_0000 && body[..7] == MAGIC[..7] && |lead| == 6
    && 1 <= offSize <= 8 && 1 <= refSize <= 8 && 0 < |offs| <= MAX_OBJECTS && top < |offs|
    && (forall i :: 0 <= i < |offs| ==> offs[i] < |body| && offs[i] < Pow256(offSize))
    && data == body + Packed(offs, offSize) + AnyTrailer(lead, offSize, refSize, |offs|, top, |body|)
  }

  lemma TrailerBack(lead: Bytes, offSize: U8, refSize: U8, num: nat, top: nat, tableOff: nat)
    requires |lead| == 6 && num < 0x1_0000_0000 && top < 0x1_0000_0000 && tableOff < 0x1_0000_0000_0000_0000
    ensures var t := AnyTrailer(lead, offSize, refSize, num, top, tableOff);
      && |t| == 32 && t[6] == offSize && t[7] == refSize
      && FromBe(t[8..16]) == num && FromBe(t[16..24]) == top && FromBe(t[24..32]) == tableOff
  {
    hide ToBe, FromBe;
    var t := AnyTrailer(lead, offSize, refSize, num, top, tableOff);
    assert t[8..16] == ToBe(num, 8) && t[16..24] == ToBe(top, 8) && t[24..32] == ToBe(tableOff, 8);
    Widths();
    FromBeToBe(num, 8);
    FromBeToBe(top, 8);
    FromBeToBe(tableOff, 8);
  }

  /** Loading a file of any writer gives the object its trailer names. */
  lemma ForeignLoad(data: Bytes, body: Bytes, offs: seq<nat>, offSize: U8, refSize: U8, top: nat, lead: Bytes, v: Value)
    requires FileOf(data, body, offs, offSize, refSize, top, lead) && Placed(data, offs, refSize, top, v, 0)
    ensures Load(data) == Some(Normal(v))
  {
    hide ToBe, FromBe, Packed, Unpack, Placed, ReadObject, AnyTrailer;
    var table, tr := Packed(offs, offSize), AnyTrailer(lead, offSize, refSize, |offs|, top, |body|);
    TrailerBack(lead, offSize, refSize, |offs|, top, |body|);
    assert data[|data| - 32..] == tr;
    assert data[..7] == body[..7];
    assert data[|body|..|body| + |table|] == table;
    UnpackAt(data, |body|, offs, offSize);
    ObjectBack(data, offs, refSize, top, v, 0);
  }

  /** So does the reader as written. */
  lemma ForeignLoadAsWritten(data: Bytes, body: Bytes, offs: seq<nat>, offSize: U8, refSize: U8, top: nat, lead: Bytes,
                             v: Value)
    requires |data| < 0x8000_0000_0000_0000
    requires FileOf(data, body, offs, offSize, refSize, top, lead) && Placed(data, offs, refSize, top, v, 0)
    ensures Reader.LoadAsWritten(data) == Reader.Got(Normal(v))
  {
    hide FileOf, Placed, Load, Normal;
    ForeignLoad(data, body, offs, offSize, refSize, top, lead, v);
    LoadedIsGot(data);
  }

  lemma LoadedIsGot(data: Bytes)
    requires |data| < 0x8000_0000_0000_0000 && Load(data).Some?
    ensures Reader.LoadAsWritten(data) == Reader.Got(Load(data).value)
  {
    hide Load;
    Reader.LoadAgrees(data);
  }
}
