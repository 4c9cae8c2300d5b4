/** RTP payloads to NAL units: src/media/nalu.cpp:16-104; section 5.8 of RFC 6184, section 4.4.3 of RFC 7798. */
module Nalu {
  import opened Wire
  import opened Bytes

  const START_CODE: Bytes := [0, 0, 0, 1]
  const AP := 48       // HEVC aggregation packet
  const FU := 49       // HEVC fragmentation unit
  const STAP_A := 24
  const FU_A := 28
  const FU_B := 29
  const CONFIG_MARKER := 0x92

  function HevcType(b: U8): nat { b / 2 % 64 }

  function AvcType(b: U8): nat { b % 32 }

  // ---- what one payload asks for ----

  datatype Action =
    | Skip
    | Emit(nals: seq<Bytes>)
    | Begin(head: Bytes)
    | More(data: Bytes, end: bool)

  function Be16(b: Bytes, pos: nat): nat
    requires pos + 2 <= |b|
  {
    b[pos] as nat * 0x100 + b[pos + 1] as nat
  }

  /** The length-prefixed units of an aggregate from `pos` on, up to the first malformed one. */
  function UnitsFrom(pay: Bytes, pos: nat): (r: seq<Bytes>)
    ensures forall n :: n in r ==> 0 < |n| < 0x1_0000 && pos + 2 + |n| <= |pay|
    decreases |pay| - pos
  {
    if pos + 2 > |pay| then []
    else
      var size := Be16(pay, pos);
      if size == 0 || pos + 2 + size > |pay| then []
      else [pay[pos + 2..pos + 2 + size]] + UnitsFrom(pay, pos + 2 + size)
  }

  function FragmentAction(header: U8, head: Bytes, data: Bytes): Action {
    if header >= 0x80 then Begin(head + data) else More(data, header / 0x40 % 2 == 1)
  }

  function HevcAction(pay: Bytes): Action {
    if |pay| < 2 then Skip
    else if HevcType(pay[0]) == AP then Emit(UnitsFrom(pay, 4))
    else if HevcType(pay[0]) == FU then
      if |pay| < 6 then Skip
      else FragmentAction(pay[2], [pay[0] / 0x80 * 0x80 + pay[0] % 2 + 2 * (pay[2] % 64), pay[1]], pay[5..])
    else if |pay| < 4 then Skip
    else Emit([pay[..2] + pay[4..]])
  }

  function AvcAction(pay: Bytes): Action {
    if pay == [] || pay[0] == CONFIG_MARKER then Skip
    else
      var t := AvcType(pay[0]);
      if t == FU_A || t == FU_B then
        var off := if t == FU_B then 4 else 2;
        if |pay| < off then Skip
        else FragmentAction(pay[1], [pay[0] / 0x20 * 0x20 + pay[1] % 32], pay[off..])
      else if t == STAP_A then Emit(UnitsFrom(pay, 3))
      else if 1 <= t <= 23 && |pay| >= 2 then Emit([pay])
      else Skip
  }

  function ActionOf(c: Codec, pay: Bytes): Action {
    if c == Hevc then HevcAction(pay) else AvcAction(pay)
  }

  // ---- the output buffer ----

  datatype Range = Range(off: nat, len: nat)

  /** The output, the ranges of the finished NALs, and where an open fragment chain starts. */
  datatype Buffer = Buffer(out: Bytes, ranges: seq<Range>, open: Option<nat>)

  /** An open chain starts after its start code and inside the output. */
  type Output = o: Buffer | o.open.Some? ==> 4 <= o.open.value <= |o.out| witness Buffer([], [], None)

  function AnnexB(nals: seq<Bytes>): Bytes {
    if nals == [] then [] else AnnexB(nals[..|nals| - 1]) + START_CODE + nals[|nals| - 1]
  }

  /** Where `AnnexB(nals)` places each NAL when it is appended at `base`. */
  function RangesAt(base: nat, nals: seq<Bytes>): (r: seq<Range>)
    ensures |r| == |nals|
  {
    if nals == [] then []
    else
      var before := nals[..|nals| - 1];
      RangesAt(base, before) + [Range(base + |AnnexB(before)| + 4, |nals[|nals| - 1]|)]
  }

  function Append(o: Output, nals: seq<Bytes>): Output {
    o.(out := o.out + AnnexB(nals), ranges := o.ranges + RangesAt(|o.out|, nals))
  }

  function Act(o: Output, a: Action): Output {
    match a
    case Skip => o
    case Emit(nals) => Append(o, nals)
    case Begin(head) => Buffer(o.out + START_CODE + head, o.ranges, Some(|o.out| + 4))
    case More(data, end) =>
      if o.open.None? then o
      else
        var out := o.out + data;
        if end then Buffer(out, o.ranges + [Range(o.open.value, |out| - o.open.value)], None)
        else Buffer(out, o.ranges, o.open)
  }

  function Run(c: Codec, o: Output, pays: seq<Bytes>): Output {
    if pays == [] then o else Act(Run(c, o, pays[..|pays| - 1]), ActionOf(c, pays[|pays| - 1]))
  }

  /** Drops an unfinished chain. */
  function Finish(o: Output): Output {
    if o.open.Some? then Buffer(o.out[..o.open.value - 4], o.ranges, None) else o
  }

  function Reassemble(c: Codec, pays: seq<Bytes>, out: Bytes, ranges: seq<Range>): Output {
    Finish(Run(c, Buffer(out, ranges, None), pays))
  }

  // ---- appending ----

  lemma {:induction false} AppendMore(o: Output, a: seq<Bytes>, b: seq<Bytes>)
    ensures Append(Append(o, a), b) == Append(o, a + b)
  {
    if b == [] {
      assert a + b == a;
    } else {
      var init, last := b[..|b| - 1], b[|b| - 1];
      AppendMore(o, a, init);
      AppendOne(o, a + init, last);
      AppendOne(Append(o, a), init, last);
      assert a + b == a + init + [last];
      assert b == init + [last];
    }
  }

  lemma AppendOne(o: Output, a: seq<Bytes>, n: Bytes)
    ensures var w := Append(o, a);
      Append(o, a + [n]) == Buffer(w.out + START_CODE + n, w.ranges + [Range(|w.out| + 4, |n|)], o.open)
  {
    assert (a + [n])[..|a|] == a;
    assert o.out + (AnnexB(a) + START_CODE + n) == o.out + AnnexB(a) + START_CODE + n;
  }

  lemma {:induction false} RunMore(c: Codec, o: Output, p: seq<Bytes>, q: seq<Bytes>)
    ensures Run(c, Run(c, o, p), q) == Run(c, o, p + q)
  {
    hide Act, ActionOf;
    if q == [] {
      assert p + q == p;
    } else {
      RunMore(c, o, p, q[..|q| - 1]);
      assert (p + q)[..|p + q| - 1] == p + q[..|q| - 1];
    }
  }

  lemma RunOne(c: Codec, o: Output, pay: Bytes)
    ensures Run(c, o, [pay]) == Act(o, ActionOf(c, pay))
  {
    hide Act, ActionOf;
    assert [pay][..0] == [];
  }

  // ---- what a sender may send ----

  datatype Fragment = Fragment(don: Option<U16>, data: Bytes)

  /** One transmission unit: a NAL by itself, several NALs in one payload, or one NAL in fragments. */
  datatype Unit =
    | Single(nal: Bytes, don: U16)
    | Aggregate(indicator: Bytes, nals: seq<Bytes>, don: U16)
    | Chain(nal: Bytes, fragments: seq<Fragment>)

  function HeaderSize(c: Codec): nat {
    if c == Hevc then 2 else 1
  }

  function Joined(f: seq<Fragment>): Bytes {
    if f == [] then [] else Joined(f[..|f| - 1]) + f[|f| - 1].data
  }

  /** What the reassembler expects of a unit; a chain has at least two fragments. */
  ghost predicate Sendable(c: Codec, u: Unit) {
    match u
    case Single(n, _) =>
      |n| >= 2 && (if c == Hevc then HevcType(n[0]) != AP && HevcType(n[0]) != FU
                   else 1 <= AvcType(n[0]) <= 23 && n[0] != CONFIG_MARKER)
    case Aggregate(ind, nals, _) =>
      && |ind| == HeaderSize(c)
      && (if c == Hevc then HevcType(ind[0]) == AP else AvcType(ind[0]) == STAP_A)
      && forall n :: n in nals ==> 0 < |n| < 0x1_0000
    case Chain(n, f) =>
      && |n| >= HeaderSize(c) && |f| >= 2 && Joined(f) == n[HeaderSize(c)..]
      && (c == Hevc ==> forall x :: x in f ==> x.don.Some? && x.data != [])
  }

  function LengthPrefixed(nals: seq<Bytes>): Bytes
    requires forall n :: n in nals ==> |n| < 0x1_0000
  {
    if nals == [] then [] else ToBe(|nals[0]|, 2) + nals[0] + LengthPrefixed(nals[1..])
  }

  function FragmentHeader(t: nat, start: bool, end: bool): U8
    requires t < 64
  {
    (if start then 0x80 else 0) + (if end then 0x40 else 0) + t
  }

  function FragmentPayload(c: Codec, n: Bytes, x: Fragment, start: bool, end: bool): Bytes
    requires |n| >= HeaderSize(c) && (c == Hevc ==> x.don.Some?)
  {
    if c == Hevc then
      [98 + n[0] / 0x80 * 0x80 + n[0] % 2, n[1], FragmentHeader(HevcType(n[0]), start, end)]
      + ToBe(x.don.value, 2) + x.data
    else if x.don.None? then
      [n[0] / 0x20 * 0x20 + FU_A, FragmentHeader(AvcType(n[0]), start, end)] + x.data
    else
      [n[0] / 0x20 * 0x20 + FU_B, FragmentHeader(AvcType(n[0]), start, end)] + ToBe(x.don.value, 2) + x.data
  }

  /** The payloads of the first `k` fragments. */
  function ChainPayloads(c: Codec, n: Bytes, f: seq<Fragment>, k: nat): (p: seq<Bytes>)
    requires Sendable(c, Chain(n, f)) && k <= |f|
    ensures |p| == k
  {
    if k == 0 then []
    else ChainPayloads(c, n, f, k - 1) + [FragmentPayload(c, n, f[k - 1], k == 1, k == |f|)]
  }

  function Payloads(c: Codec, u: Unit): seq<Bytes>
    requires Sendable(c, u)
  {
    match u
    case Single(n, don) => if c == Hevc then [n[..2] + ToBe(don, 2) + n[2..]] else [n]
    case Aggregate(ind, nals, don) => [ind + ToBe(don, 2) + LengthPrefixed(nals)]
    case Chain(n, f) => ChainPayloads(c, n, f, |f|)
  }

  function NalsOf(u: Unit): seq<Bytes> {
    if u.Aggregate? then u.nals else [u.nal]
  }

  // ---- one unit ----

  lemma Be16ToBe(v: U16, b: Bytes, pos: nat)
    requires pos + 2 <= |b| && b[pos..pos + 2] == ToBe(v, 2)
    ensures Be16(b, pos) == v
  {
    var t := ToBe(v, 2);
    assert t == [v / 0x100 % 0x100, v % 0x100] by {
      assert ToBe(v, 2) == ToBe(v / 0x100, 1) + [v % 0x100];
      assert ToBe(v / 0x100, 1) == ToBe(v / 0x100 / 0x100, 0) + [v / 0x100 % 0x100];
    }
    assert b[pos] == b[pos..pos + 2][0] && b[pos + 1] == b[pos..pos + 2][1];
    DivModUnique(v / 0x100, 0x100, 0, v / 0x100);
  }

  lemma UnitsStep(b: Bytes, pos: nat, n: Bytes)
    requires 0 < |n| < 0x1_0000 && pos + 2 + |n| <= |b|
    requires b[pos..pos + 2] == ToBe(|n|, 2) && b[pos + 2..pos + 2 + |n|] == n
    ensures UnitsFrom(b, pos) == [n] + UnitsFrom(b, pos + 2 + |n|)
  {
    hide ToBe;
    Be16ToBe(|n|, b, pos);
  }

  lemma Pieces(pre: Bytes, l: Bytes, n: Bytes, tail: Bytes)
    ensures pre + (l + n + tail) == pre + l + n + tail
    ensures (pre + l + n + tail)[|pre|..|pre| + |l|] == l
    ensures (pre + l + n + tail)[|pre| + |l|..|pre| + |l| + |n|] == n
  {
  }

  lemma {:induction false} UnitsReadBack(pre: Bytes, nals: seq<Bytes>)
    requires forall n :: n in nals ==> 0 < |n| < 0x1_0000
    ensures UnitsFrom(pre + LengthPrefixed(nals), |pre|) == nals
    decreases nals
  {
    hide ToBe, UnitsFrom;
    if nals == [] {
      assert pre + LengthPrefixed(nals) == pre;
      NoUnits(pre);
    } else {
      var n, l, tail := nals[0], ToBe(|nals[0]|, 2), LengthPrefixed(nals[1..]);
      var b := pre + l + n + tail;
      assert pre + LengthPrefixed(nals) == b && b[|pre|..|pre| + 2] == l && b[|pre| + 2..|pre| + 2 + |n|] == n by {
        PrefixedFirst(nals);
        Pieces(pre, l, n, tail);
      }
      UnitsStep(b, |pre|, n);
      var done := pre + l + n;
      assert UnitsFrom(done + tail, |done|) == nals[1..] by { UnitsReadBack(done, nals[1..]); }
      assert UnitsFrom(b, |pre|) == [n] + nals[1..];
    }
  }

  lemma NoUnits(pre: Bytes)
    ensures UnitsFrom(pre, |pre|) == []
  {
  }

  lemma PrefixedFirst(nals: seq<Bytes>)
    requires nals != [] && forall n :: n in nals ==> |n| < 0x1_0000
    ensures LengthPrefixed(nals) == ToBe(|nals[0]|, 2) + nals[0] + LengthPrefixed(nals[1..])
  {
    hide ToBe;
  }

  lemma HevcFragment(n: Bytes, x: Fragment, start: bool, end: bool)
    requires |n| >= 2 && x.don.Some? && x.data != []
    ensures HevcAction(FragmentPayload(Hevc, n, x, start, end))
         == if start then Begin(n[..2] + x.data) else More(x.data, end)
  {
    hide ToBe, FragmentAction, FragmentHeader;
    var p := FragmentPayload(Hevc, n, x, start, end);
    assert p[0] == 98 + n[0] / 0x80 * 0x80 + n[0] % 2 && p[1] == n[1];
    assert p[2] == FragmentHeader(HevcType(n[0]), start, end) && p[5..] == x.data;
    HevcHeader(n[0], n[1], start, end, x.data);
    assert n[..2] == [n[0], n[1]];
  }

  lemma HevcHeader(b: U8, b1: U8, start: bool, end: bool, data: Bytes)
    ensures var h := FragmentHeader(HevcType(b), start, end);
      var p := 98 + b / 0x80 * 0x80 + b % 2;
      && 0 <= p < 0x100 && HevcType(p) == FU
      && p / 0x80 * 0x80 + p % 2 + 2 * (h % 64) == b
      && FragmentAction(h, [b, b1], data) == if start then Begin([b, b1] + data) else More(data, end)
  {
    var q, t, r := b / 0x80, HevcType(b), b % 2;
    assert q == 0 || q == 1;
    assert b == 0x80 * q + 2 * t + r;
    assert FragmentHeader(t, start, end) % 64 == t;
  }

  lemma AvcFragment(n: Bytes, x: Fragment, start: bool, end: bool)
    requires |n| >= 1
    ensures AvcAction(FragmentPayload(Avc, n, x, start, end))
         == if start then Begin(n[..1] + x.data) else More(x.data, end)
  {
    hide ToBe, FragmentAction, FragmentHeader;
    var p := FragmentPayload(Avc, n, x, start, end);
    var h := FragmentHeader(AvcType(n[0]), start, end);
    assert |p| >= 2 && p[1] == h;
    if x.don.None? {
      assert p[2..] == x.data && AvcType(p[0]) == FU_A;
    } else {
      assert p[4..] == x.data && AvcType(p[0]) == FU_B;
    }
    AvcHeader(n[0], start, end, x.data);
    assert n[..1] == [n[0]];
  }

  lemma AvcHeader(b: U8, start: bool, end: bool, data: Bytes)
    ensures var h := FragmentHeader(AvcType(b), start, end);
      && b / 0x20 * 0x20 + h % 32 == b
      && FragmentAction(h, [b], data) == if start then Begin([b] + data) else More(data, end)
  {
  }

  lemma FragmentActs(c: Codec, n: Bytes, x: Fragment, start: bool, end: bool)
    requires |n| >= HeaderSize(c) && (c == Hevc ==> x.don.Some? && x.data != [])
    ensures ActionOf(c, FragmentPayload(c, n, x, start, end))
         == if start then Begin(n[..HeaderSize(c)] + x.data) else More(x.data, end)
  {
    hide FragmentPayload, HevcAction, AvcAction;
    if c == Hevc {
      HevcFragment(n, x, start, end);
    } else {
      AvcFragment(n, x, start, end);
    }
  }

  lemma ChainBegins(o: Output, head: Bytes, data: Bytes)
    ensures Act(o, Begin(head + data)) == Buffer(o.out + START_CODE + head + data, o.ranges, Some(|o.out| + 4))
  {
    assert o.out + START_CODE + (head + data) == o.out + START_CODE + head + data;
  }

  lemma ChainContinues(o: Output, head: Bytes, mid: Bytes, data: Bytes)
    ensures Act(Buffer(o.out + START_CODE + head + mid, o.ranges, Some(|o.out| + 4)), More(data, false))
         == Buffer(o.out + START_CODE + head + (mid + data), o.ranges, Some(|o.out| + 4))
  {
    assert o.out + START_CODE + head + mid + data == o.out + START_CODE + head + (mid + data);
  }

  lemma RunLast(c: Codec, o: Output, p: seq<Bytes>, x: Bytes)
    ensures Run(c, o, p + [x]) == Act(Run(c, o, p), ActionOf(c, x))
  {
    hide Act, ActionOf;
    assert (p + [x])[..|p|] == p;
  }

  /** After some but not all fragments the chain is open and holds what arrived of the NAL. */
  lemma {:induction false} ChainOpen(c: Codec, o: Output, n: Bytes, f: seq<Fragment>, k: nat)
    requires Sendable(c, Chain(n, f)) && 0 < k < |f|
    ensures Run(c, o, ChainPayloads(c, n, f, k))
         == Buffer(o.out + START_CODE + n[..HeaderSize(c)] + Joined(f[..k]), o.ranges, Some(|o.out| + 4))
    decreases k
  {
    hide ActionOf, FragmentPayload, Joined, Sendable, Act, Run;
    ChainFragment(c, n, f, k, k == 1, false);
    JoinedNext(f, k - 1);
    RunLast(c, o, ChainPayloads(c, n, f, k - 1), FragmentPayload(c, n, f[k - 1], k == 1, false));
    if k == 1 {
      NothingRun(c, o);
      ChainBegins(o, n[..HeaderSize(c)], f[0].data);
    } else {
      ChainOpen(c, o, n, f, k - 1);
      ChainContinues(o, n[..HeaderSize(c)], Joined(f[..k - 1]), f[k - 1].data);
    }
  }

  lemma NothingRun(c: Codec, o: Output)
    ensures Run(c, o, []) == o
  {
  }

  lemma JoinedNext(f: seq<Fragment>, k: nat)
    requires k < |f|
    ensures Joined(f[..k + 1]) == Joined(f[..k]) + f[k].data
    ensures k == 0 ==> Joined(f[..k + 1]) == f[k].data
  {
    assert f[..k + 1][..k] == f[..k];
  }

  lemma ChainFragment(c: Codec, n: Bytes, f: seq<Fragment>, k: nat, start: bool, end: bool)
    requires Sendable(c, Chain(n, f)) && 0 < k <= |f|
    ensures |n| >= HeaderSize(c) && (c == Hevc ==> f[k - 1].don.Some?)
    ensures ActionOf(c, FragmentPayload(c, n, f[k - 1], start, end))
         == if start then Begin(n[..HeaderSize(c)] + f[k - 1].data) else More(f[k - 1].data, end)
  {
    hide ActionOf, FragmentPayload;
    FragmentActs(c, n, f[k - 1], start, end);
  }

  /** A whole chain delivers its NAL and replaces whatever chain was open. */
  lemma ChainDelivers(c: Codec, o: Output, n: Bytes, f: seq<Fragment>)
    requires Sendable(c, Chain(n, f))
    ensures Run(c, o, ChainPayloads(c, n, f, |f|)) == Append(o, [n]).(open := None)
  {
    hide ActionOf, FragmentPayload, Append, Joined, Act, Run;
    var k := |f|;
    ChainOpen(c, o, n, f, k - 1);
    ChainFragment(c, n, f, k, false, true);
    RunLast(c, o, ChainPayloads(c, n, f, k - 1), FragmentPayload(c, n, f[k - 1], false, true));
    JoinedNext(f, k - 1);
    assert f[..k] == f;
    ChainCloses(o, n[..HeaderSize(c)], Joined(f[..k - 1]), f[k - 1].data);
    assert n[..HeaderSize(c)] + n[HeaderSize(c)..] == n;
  }

  lemma ChainCloses(o: Output, head: Bytes, mid: Bytes, last: Bytes)
    ensures Act(Buffer(o.out + START_CODE + head + mid, o.ranges, Some(|o.out| + 4)), More(last, true))
         == Append(o, [head + (mid + last)]).(open := None)
  {
    var n := head + (mid + last);
    assert o.out + START_CODE + head + mid + last == o.out + START_CODE + n;
    AppendOne(o, [], n);
    assert [] + [n] == [n];
    assert o.out + AnnexB([]) == o.out && o.ranges + RangesAt(|o.out|, []) == o.ranges;
  }

  lemma SingleActs(c: Codec, u: Unit)
    requires u.Single? && Sendable(c, u)
    ensures ActionOf(c, Payloads(c, u)[0]) == Emit([u.nal])
  {
    hide ToBe;
    if c == Hevc {
      var n, p := u.nal, Payloads(c, u)[0];
      assert p[..2] == n[..2] && p[4..] == n[2..];
      assert n == n[..2] + n[2..];
    }
  }

  lemma AggregateActs(c: Codec, u: Unit)
    requires u.Aggregate? && Sendable(c, u)
    ensures ActionOf(c, Payloads(c, u)[0]) == Emit(u.nals)
  {
    hide ToBe, LengthPrefixed, UnitsFrom;
    UnitsReadBack(u.indicator + ToBe(u.don, 2), u.nals);
  }

  lemma UnitDelivers(c: Codec, o: Output, u: Unit)
    requires Sendable(c, u) && o.open.None?
    ensures Run(c, o, Payloads(c, u)) == Append(o, NalsOf(u))
  {
    hide ActionOf, Sendable, ChainPayloads, Append;
    if u.Chain? {
      ChainDelivers(c, o, u.nal, u.fragments);
      AppendKeepsOpen(o, [u.nal]);
    } else {
      RunOne(c, o, Payloads(c, u)[0]);
      if u.Single? {
        SingleActs(c, u);
      } else {
        AggregateActs(c, u);
      }
    }
  }

  /** A unit cut short leaves no trace. */
  lemma UnitCut(c: Codec, o: Output, u: Unit, k: nat)
    requires Sendable(c, u) && o.open.None? && k < |Payloads(c, u)|
    ensures Finish(Run(c, o, Payloads(c, u)[..k])) == o
  {
    hide ActionOf;
    if u.Chain? && k > 0 {
      ChainPrefix(c, u.nal, u.fragments, k, |u.fragments|);
      ChainOpen(c, o, u.nal, u.fragments, k);
      assert (o.out + START_CODE + u.nal[..HeaderSize(c)] + Joined(u.fragments[..k]))[..|o.out|] == o.out;
    } else {
      assert Payloads(c, u)[..k] == [];
    }
  }

  lemma {:induction false} ChainPrefix(c: Codec, n: Bytes, f: seq<Fragment>, k: nat, m: nat)
    requires Sendable(c, Chain(n, f)) && k <= m <= |f|
    ensures ChainPayloads(c, n, f, m)[..k] == ChainPayloads(c, n, f, k)
    decreases m
  {
    hide FragmentPayload, Sendable;
    if k < m {
      ChainPrefix(c, n, f, k, m - 1);
      assert ChainPayloads(c, n, f, m)[..k] == ChainPayloads(c, n, f, m - 1)[..k];
    }
  }

  // ---- any prefix of what was sent ----

  function AllPayloads(c: Codec, us: seq<Unit>): seq<Bytes>
    requires forall u :: u in us ==> Sendable(c, u)
  {
    if us == [] then [] else Payloads(c, us[0]) + AllPayloads(c, us[1..])
  }

  /** The NALs of the units that the first `k` payloads hold completely. */
  function CompleteNals(c: Codec, us: seq<Unit>, k: nat): seq<Bytes>
    requires forall u :: u in us ==> Sendable(c, u)
  {
    if us == [] || k < |Payloads(c, us[0])| then []
    else NalsOf(us[0]) + CompleteNals(c, us[1..], k - |Payloads(c, us[0])|)
  }

  /** Any prefix of the payloads yields exactly the NALs that are complete in it, one after another. */
  lemma {:induction false} PrefixReassembles(c: Codec, us: seq<Unit>, k: nat, out: Bytes, ranges: seq<Range>)
    requires (forall u :: u in us ==> Sendable(c, u)) && k <= |AllPayloads(c, us)|
    ensures Reassemble(c, AllPayloads(c, us)[..k], out, ranges)
         == Append(Buffer(out, ranges, None), CompleteNals(c, us, k))
    decreases us
  {
    hide Sendable, Payloads, Append, Run, Finish;
    var o := Buffer(out, ranges, None);
    var all := AllPayloads(c, us);
    if us == [] {
      assert all[..k] == [];
      NothingSent(c, o);
    } else {
      var p, rest := Payloads(c, us[0]), AllPayloads(c, us[1..]);
      if k < |p| {
        assert all[..k] == p[..k];
        UnitCut(c, o, us[0], k);
        NothingSent(c, o);
      } else {
        var w := Append(o, NalsOf(us[0]));
        assert all[..k] == p + rest[..k - |p|];
        UnitDelivers(c, o, us[0]);
        RunMore(c, o, p, rest[..k - |p|]);
        assert w.open.None? by { AppendKeepsOpen(o, NalsOf(us[0])); }
        PrefixReassembles(c, us[1..], k - |p|, w.out, w.ranges);
        AppendMore(o, NalsOf(us[0]), CompleteNals(c, us[1..], k - |p|));
      }
    }
  }

  lemma AppendKeepsOpen(o: Output, nals: seq<Bytes>)
    ensures Append(o, nals).open == o.open
  {
  }

  lemma NothingSent(c: Codec, o: Output)
    requires o.open.None?
    ensures Finish(Run(c, o, [])) == o && Append(o, []) == o
  {
    assert o.out + AnnexB([]) == o.out && o.ranges + RangesAt(|o.out|, []) == o.ranges;
  }
}
