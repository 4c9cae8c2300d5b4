/** Generic NACK packets: src/protocol/rtcp.cpp:18-37; section 6.2.1 of RFC 4585. */
module Nack {
  import opened Wire
  import opened Bytes

  /** The set of lost sequence numbers, in the order the source walks it. */
  ghost predicate Ascending(s: seq<U16>) {
    forall i, j :: 0 <= i < j < |s| ==> s[i] < s[j]
  }

  // ---- bits of the mask ----

  predicate Bit(v: nat, k: nat) {
    if k == 0 then v % 2 == 1 else Bit(v / 2, k - 1)
  }

  /** `v | (1 << k)`. */
  function SetBit(v: nat, k: nat): nat {
    if k == 0 then v / 2 * 2 + 1 else 2 * SetBit(v / 2, k - 1) + v % 2
  }

  lemma {:induction false} BitOfSetBit(v: nat, k: nat, i: nat)
    ensures Bit(SetBit(v, k), i) <==> i == k || Bit(v, i)
    decreases k
  {
    if k > 0 {
      HalfAndBit(SetBit(v / 2, k - 1), v % 2);
      if i > 0 {
        BitOfSetBit(v / 2, k - 1, i - 1);
      }
    } else {
      HalfAndBit(v / 2, 1);
    }
  }

  lemma {:induction false} SetBitBound(v: nat, k: nat, n: nat)
    requires v < Pow2(n) && k < n
    ensures SetBit(v, k) < Pow2(n)
    decreases n
  {
    if k > 0 {
      SetBitBound(v / 2, k - 1, n - 1);
    }
  }

  lemma {:induction false} NoBits(i: nat)
    ensures !Bit(0, i)
  {
    if i > 0 {
      NoBits(i - 1);
    }
  }

  // ---- one pair ----

  datatype Pair = Pair(pid: U16, blp: U16)

  /** What a pair reports: its PID and, for each mask bit, the number that far behind it, modulo 2^16. */
  predicate Reports(p: Pair, x: U16) {
    var d := Sub16(x, p.pid);
    d == 0 || (d <= 16 && Bit(p.blp, d - 1))
  }

  /** How many of the numbers after the first fit into its mask. */
  function Span(s: seq<U16>, j: nat): (k: nat)
    requires 0 < j <= |s|
    ensures j <= k <= |s|
    ensures forall i :: j <= i < k ==> 1 <= Sub16(s[i], s[0]) <= 16
    ensures k < |s| ==> !(1 <= Sub16(s[k], s[0]) <= 16)
    decreases |s| - j
  {
    if j < |s| && 1 <= Sub16(s[j], s[0]) <= 16 then Span(s, j + 1) else j
  }

  function Mask(s: seq<U16>, k: nat): (blp: U16)
    requires 0 < k <= |s| && forall i :: 1 <= i < k ==> 1 <= Sub16(s[i], s[0]) <= 16
  {
    if k == 1 then 0
    else
      assert Pow2(16) == 0x1_0000 by { assert Pow2(8) == 0x100 by { assert Pow2(4) == 16; } assert Pow2(12) == 0x1000; }
      SetBitBound(Mask(s, k - 1), Sub16(s[k - 1], s[0]) - 1, 16);
      SetBit(Mask(s, k - 1), Sub16(s[k - 1], s[0]) - 1)
  }

  lemma {:induction false} MaskBits(s: seq<U16>, k: nat, d: nat)
    requires 0 < k <= |s| && forall i :: 1 <= i < k ==> 1 <= Sub16(s[i], s[0]) <= 16
    ensures Bit(Mask(s, k), d) <==> exists i :: 1 <= i < k && Sub16(s[i], s[0]) == d + 1
    decreases k
  {
    if k == 1 {
      NoBits(d);
    } else {
      MaskBits(s, k - 1, d);
      BitOfSetBit(Mask(s, k - 1), Sub16(s[k - 1], s[0]) - 1, d);
    }
  }

  /** The greedy packing. */
  function Pack(s: seq<U16>): seq<Pair> {
    if s == [] then []
    else
      var k := Span(s, 1);
      [Pair(s[0], Mask(s, k))] + Pack(s[k..])
  }

  // ---- exactness ----

  lemma PairReports(s: seq<U16>, x: U16)
    requires s != []
    ensures var k := Span(s, 1); Reports(Pair(s[0], Mask(s, k)), x) <==> x in s[..k]
  {
    hide Mask, Bit, Span;
    var k := Span(s, 1);
    var d := Sub16(x, s[0]);
    if 1 <= d <= 16 {
      MaskBits(s, k, d - 1);
      if i :| 1 <= i < k && Sub16(s[i], s[0]) == d {
        SameDistance(s[i], x, s[0]);
        assert s[..k][i] == x;
      }
    }
    if x in s[..k] {
      var i :| 0 <= i < k && s[i] == x;
    }
    if d == 0 {
      SameDistance(s[0], x, s[0]);
      assert s[..k][0] == x;
    }
  }

  lemma SameDistance(a: U16, b: U16, p: U16)
    requires Sub16(a, p) == Sub16(b, p)
    ensures a == b
  {
  }

  ghost predicate Reported(ps: seq<Pair>, x: U16) {
    exists i :: 0 <= i < |ps| && Reports(ps[i], x)
  }

  /** The pairs report exactly the lost numbers. */
  lemma {:induction false} PackExact(s: seq<U16>, x: U16)
    ensures Reported(Pack(s), x) <==> x in s
    decreases |s|
  {
    hide Reports, Mask, Span;
    if s != [] {
      var k := Span(s, 1);
      var p := Pair(s[0], Mask(s, k));
      PairReports(s, x);
      PackExact(s[k..], x);
      assert s == s[..k] + s[k..];
      ReportedFirst(p, Pack(s[k..]), x);
    }
  }

  lemma ReportedFirst(p: Pair, ps: seq<Pair>, x: U16)
    ensures Reported([p] + ps, x) <==> Reports(p, x) || Reported(ps, x)
  {
    hide Reports;
    var all := [p] + ps;
    if Reported(ps, x) {
      var i :| 0 <= i < |ps| && Reports(ps[i], x);
      assert all[i + 1] == ps[i];
    }
    if Reports(p, x) {
      assert all[0] == p;
    }
    if Reported(all, x) {
      var i :| 0 <= i < |all| && Reports(all[i], x);
      assert i > 0 ==> all[i] == ps[i - 1];
    }
  }

  // ---- shortness ----

  /** Consecutive PIDs of the packing lie at least 17 apart. */
  ghost predicate Spread(ps: seq<Pair>) {
    forall i, j :: 0 <= i < j < |ps| ==> ps[i].pid as int + 17 <= ps[j].pid as int
  }

  lemma PastSpan(s: seq<U16>, x: U16)
    requires s != [] && Ascending(s) && x in s[Span(s, 1)..]
    ensures s[0] as int + 17 <= x as int && x in s
  {
    hide Span;
    var k := Span(s, 1);
    var m :| 0 <= m < |s[k..]| && s[k..][m] == x;
    assert s[k + m] == x;
    assert m > 0 ==> s[k] < s[k + m];
    assert Sub16(s[k], s[0]) == s[k] - s[0];
  }

  lemma {:induction false} PackSpread(s: seq<U16>)
    requires Ascending(s)
    ensures Spread(Pack(s))
    ensures forall i :: 0 <= i < |Pack(s)| ==> Pack(s)[i].pid in s
    decreases |s|
  {
    hide Mask, Span;
    if s != [] {
      var k := Span(s, 1);
      AscendingTail(s, k);
      PackSpread(s[k..]);
      var rest := Pack(s[k..]);
      forall j | 0 <= j < |rest| ensures s[0] as int + 17 <= rest[j].pid as int && rest[j].pid in s {
        PastSpan(s, rest[j].pid);
      }
      SpreadFirst(Pair(s[0], Mask(s, k)), rest, s);
    }
  }

  lemma SpreadFirst(p: Pair, rest: seq<Pair>, s: seq<U16>)
    requires Spread(rest) && p.pid in s
    requires forall j :: 0 <= j < |rest| ==> p.pid as int + 17 <= rest[j].pid as int && rest[j].pid in s
    ensures Spread([p] + rest) && forall i :: 0 <= i < |rest| + 1 ==> ([p] + rest)[i].pid in s
  {
    var all := [p] + rest;
    assert forall i :: 0 < i < |all| ==> all[i] == rest[i - 1];
  }

  lemma AscendingTail(s: seq<U16>, k: nat)
    requires k <= |s| && Ascending(s)
    ensures Ascending(s[k..])
  {
  }

  /** A pair whose mask does not run past 65535. */
  predicate NonWrapping(p: Pair) {
    forall x: U16 | x < p.pid :: !Reports(p, x)
  }

  /** No pair reports two of the numbers. */
  ghost predicate Separates(xs: seq<U16>, cover: seq<Pair>) {
    forall i, j, m :: 0 <= i < j < |xs| && 0 <= m < |cover| ==> !(Reports(cover[m], xs[i]) && Reports(cover[m], xs[j]))
  }

  lemma {:induction false} OnePairEach(xs: seq<U16>, cover: seq<Pair>)
    requires Separates(xs, cover) && forall i :: 0 <= i < |xs| ==> Reported(cover, xs[i])
    ensures |cover| >= |xs|
    decreases |xs|
  {
    hide Reports;
    if xs != [] {
      var last := |xs| - 1;
      var m :| 0 <= m < |cover| && Reports(cover[m], xs[last]);
      var fewer := cover[..m] + cover[m + 1..];
      forall i | 0 <= i < last ensures Reported(fewer, xs[i]) {
        assert Reported(cover, xs[i]);
        var q :| 0 <= q < |cover| && Reports(cover[q], xs[i]);
        assert q != m;
        assert cover[q] == fewer[if q < m then q else q - 1];
      }
      assert forall q :: 0 <= q < |fewer| ==> fewer[q] == cover[if q < m then q else q + 1];
      OnePairEach(xs[..last], fewer);
    }
  }

  ghost function Pids(ps: seq<Pair>): (r: seq<U16>)
    ensures |r| == |ps| && forall i :: 0 <= i < |ps| ==> r[i] == ps[i].pid
  {
    seq(|ps|, i requires 0 <= i < |ps| => ps[i].pid)
  }

  ghost predicate Covers(cover: seq<Pair>, s: seq<U16>) {
    forall i :: 0 <= i < |s| ==> Reported(cover, s[i])
  }

  lemma PidsReported(s: seq<U16>, cover: seq<Pair>, i: nat)
    requires Ascending(s) && Covers(cover, s) && i < |Pack(s)|
    ensures Reported(cover, Pack(s)[i].pid)
  {
    hide Reported, Pack;
    PackSpread(s);
    assert Pack(s)[i].pid in s;
    var j :| 0 <= j < |s| && s[j] == Pack(s)[i].pid;
  }

  /** Pairs that wrap around can save at most one. */
  lemma PackWithinOne(s: seq<U16>, cover: seq<Pair>)
    requires Ascending(s) && Covers(cover, s)
    ensures |cover| + 1 >= |Pack(s)|
  {
    hide Pack, Reported, Bit;
    PackSpread(s);
    if |Pack(s)| > 0 {
      var all := Pids(Pack(s));
      var xs := all[..|all| - 1];
      forall i | 0 <= i < |xs| ensures Reported(cover, xs[i]) {
        PidsReported(s, cover, i);
      }
      forall i, j, m | 0 <= i < j < |xs| && 0 <= m < |cover|
        ensures !(Reports(cover[m], xs[i]) && Reports(cover[m], xs[j]))
      {
        assert xs[i] as int + 17 <= xs[j] as int <= all[|all| - 1] as int - 17;
      }
      OnePairEach(xs, cover);
    }
  }

  /**
   * The numbers from `a` on and the numbers before `b` fit into one pair that wraps around, and the rest
   * packs into fewer pairs than that saves.
   */
  predicate WrapSaves(s: seq<U16>, a: nat, b: nat) {
    && 0 < b <= a < |s|
    && s[|s| - 1] as int - s[a] as int <= 16
    && s[b - 1] as int + 0x1_0000 - s[a] as int <= 16
    && |Pack(s[b..a])| + 1 < |Pack(s)|
  }

  /** The shorter list: the middle packed, and one wrapping pair for the two ends. */
  lemma WrappingCover(s: seq<U16>, a: nat, b: nat) returns (cover: seq<Pair>)
    requires Ascending(s) && WrapSaves(s, a, b)
    ensures |cover| < |Pack(s)| && forall x: U16 :: Reported(cover, x) <==> x in s
  {
    hide Pack, Reported;
    var ends := s[a..] + s[..b];
    EndsPackIntoOne(s, a, b);
    cover := Pack(s[b..a]) + Pack(ends);
    forall x: U16 ensures Reported(cover, x) <==> x in s {
      PackExact(s[b..a], x);
      PackExact(ends, x);
      ReportedEither(Pack(s[b..a]), Pack(ends), x);
      assert s == s[..b] + s[b..a] + s[a..];
    }
  }

  lemma EndsPackIntoOne(s: seq<U16>, a: nat, b: nat)
    requires Ascending(s) && 0 < b <= a < |s|
    requires s[|s| - 1] as int - s[a] as int <= 16 && s[b - 1] as int + 0x1_0000 - s[a] as int <= 16
    ensures |Pack(s[a..] + s[..b])| == 1
  {
    hide Mask, Span;
    var t := s[a..] + s[..b];
    forall i | 1 <= i < |t| ensures 1 <= Sub16(t[i], t[0]) <= 16 {
      if i < |s| - a {
        assert s[a] < s[a + i] <= s[|s| - 1];
      } else {
        assert t[i] == s[i - (|s| - a)] <= s[b - 1] < s[a];
      }
    }
    var k := Span(t, 1);
    assert t[k..] == [];
  }

  lemma ReportedEither(ps: seq<Pair>, qs: seq<Pair>, x: U16)
    ensures Reported(ps + qs, x) <==> Reported(ps, x) || Reported(qs, x)
  {
    hide Reports;
    var all := ps + qs;
    if i :| 0 <= i < |ps| && Reports(ps[i], x) {
      assert all[i] == ps[i];
    }
    if i :| 0 <= i < |qs| && Reports(qs[i], x) {
      assert all[|ps| + i] == qs[i];
    }
    if i :| 0 <= i < |all| && Reports(all[i], x) {
      assert all[i] == if i < |ps| then ps[i] else qs[i - |ps|];
    }
  }

  /** The pair reports lost numbers on both sides of the wrap-around. */
  ghost predicate Straddles(p: Pair, s: seq<U16>) {
    exists i, j :: 0 <= i < |s| && 0 <= j < |s| && s[i] < p.pid <= s[j] && Reports(p, s[i]) && Reports(p, s[j])
  }

  /** At most one of several numbers that lie 17 apart falls to a pair that does not straddle them. */
  lemma UnlessStraddling(xs: seq<U16>, cover: seq<Pair>)
    requires forall i, j :: 0 <= i < j < |xs| ==> xs[i] as int + 17 <= xs[j] as int
    requires forall m :: 0 <= m < |cover| ==> !Straddles(cover[m], xs)
    ensures Separates(xs, cover)
  {
    hide Reports;
    forall i, j, m | 0 <= i < j < |xs| && 0 <= m < |cover|
      ensures !(Reports(cover[m], xs[i]) && Reports(cover[m], xs[j]))
    {
      assert !Straddles(cover[m], xs);
      OnlyAcross(cover[m], xs[i], xs[j]);
    }
  }

  lemma OnlyAcross(p: Pair, x: U16, y: U16)
    requires x as int + 17 <= y as int
    ensures Reports(p, x) && Reports(p, y) ==> x < p.pid <= y
  {
    hide Bit;
  }

  lemma PidsStraddled(p: Pair, s: seq<U16>)
    requires Ascending(s) && Straddles(p, Pids(Pack(s)))
    ensures Straddles(p, s)
  {
    hide Reports, Pack;
    PackSpread(s);
    var xs := Pids(Pack(s));
    var i, j :| 0 <= i < |xs| && 0 <= j < |xs| && xs[i] < p.pid <= xs[j] && Reports(p, xs[i]) && Reports(p, xs[j]);
    assert Pack(s)[i].pid in s && Pack(s)[j].pid in s;
    var i' :| 0 <= i' < |s| && s[i'] == xs[i];
    var j' :| 0 <= j' < |s| && s[j'] == xs[j];
  }

  /** Without a straddling pair the packing is shortest. */
  lemma NoStraddleNoSaving(s: seq<U16>, cover: seq<Pair>)
    requires Ascending(s) && Covers(cover, s)
    requires forall m :: 0 <= m < |cover| ==> !Straddles(cover[m], s)
    ensures |cover| >= |Pack(s)|
  {
    hide Pack, Reported, Reports, Straddles;
    PackSpread(s);
    var xs := Pids(Pack(s));
    forall i | 0 <= i < |xs| ensures Reported(cover, xs[i]) {
      PidsReported(s, cover, i);
    }
    forall m | 0 <= m < |cover| ensures !Straddles(cover[m], xs) {
      if Straddles(cover[m], xs) {
        PidsStraddled(cover[m], s);
      }
    }
    UnlessStraddling(xs, cover);
    OnePairEach(xs, cover);
  }

  /** No list of pairs that do not wrap covers the lost numbers with fewer pairs. */
  lemma PackShortest(s: seq<U16>, cover: seq<Pair>)
    requires Ascending(s) && Covers(cover, s)
    requires forall m :: 0 <= m < |cover| ==> NonWrapping(cover[m])
    ensures |cover| >= |Pack(s)|
  {
    hide Pack, Covers, Reports;
    forall m | 0 <= m < |cover| ensures !Straddles(cover[m], s) {
      assert NonWrapping(cover[m]);
    }
    NoStraddleNoSaving(s, cover);
  }

  /** How many numbers lie below `t`. */
  function CountBelow(s: seq<U16>, t: int): (k: nat)
    ensures k <= |s| && (forall i :: 0 <= i < k ==> s[i] < t) && (k < |s| ==> s[k] >= t)
  {
    if s == [] || s[0] >= t then 0 else 1 + CountBelow(s[1..], t)
  }

  lemma {:induction false} BelowCounted(s: seq<U16>, t: int, i: nat)
    requires Ascending(s) && i < |s| && s[i] < t
    ensures i < CountBelow(s, t)
  {
    if i > 0 {
      assert s[0] < s[i];
      BelowCounted(s[1..], t, i - 1);
    }
  }

  /** What a straddling pair leaves is covered by the others, none of which straddles it. */
  lemma MiddleCovered(s: seq<U16>, cover: seq<Pair>, m: nat, a: nat, b: nat)
    requires Ascending(s) && Covers(cover, s) && m < |cover| && cover[m].pid >= 65520 && b <= a <= |s|
    requires a == CountBelow(s, cover[m].pid) && b == CountBelow(s, cover[m].pid as int - 65519)
    ensures |Pack(s[b..a])| <= |cover| - 1
  {
    hide Pack, Reported, Bit;
    var mid, fewer, p := s[b..a], cover[..m] + cover[m + 1..], cover[m].pid;
    forall i | 0 <= i < |mid| ensures Reported(fewer, mid[i]) && p as int - 65519 <= mid[i] < p {
      assert b < |s| ==> s[b] <= s[b + i];
      OthersReport(cover, m, mid[i]);
    }
    forall q | 0 <= q < |fewer| ensures !Straddles(fewer[q], mid) {
      NotBothSides(fewer[q], mid, p);
    }
    NoStraddleNoSaving(mid, fewer);
  }

  lemma NotBothSides(q: Pair, mid: seq<U16>, p: U16)
    requires p >= 65520 && forall i :: 0 <= i < |mid| ==> p as int - 65519 <= mid[i] < p
    ensures !Straddles(q, mid)
  {
    hide Bit;
  }

  lemma OthersReport(cover: seq<Pair>, m: nat, x: U16)
    requires m < |cover| && Reported(cover, x) && !Reports(cover[m], x)
    ensures Reported(cover[..m] + cover[m + 1..], x)
  {
    hide Reports;
    var fewer := cover[..m] + cover[m + 1..];
    var q :| 0 <= q < |cover| && Reports(cover[q], x);
    assert cover[q] == fewer[if q < m then q else q - 1];
  }

  lemma ReportsAcross(p: Pair, x: U16, y: U16)
    requires x < p.pid <= y && Reports(p, x)
    ensures x as int <= p.pid as int - 65520 && y as int - p.pid as int <= 16
  {
    hide Bit;
  }

  /** The two ends that a wrapping window starting at `p` reaches. */
  lemma WindowEnds(s: seq<U16>, p: U16, i: nat, j: nat, a: nat, b: nat)
    requires Ascending(s) && i < |s| && j < |s| && s[i] as int <= p as int - 65520 && p <= s[j]
    requires a == CountBelow(s, p) && b == CountBelow(s, p as int - 65519)
    ensures 0 < b <= a < |s|
    ensures s[|s| - 1] as int - s[a] as int <= 16 && s[b - 1] as int + 0x1_0000 - s[a] as int <= 16
  {
    hide CountBelow;
    BelowCounted(s, p as int - 65519, i);
    assert a <= j;
    assert s[b - 1] as int < p as int - 65519;
  }

  lemma StraddlingSaves(s: seq<U16>, cover: seq<Pair>, m: nat) returns (a: nat, b: nat)
    requires Ascending(s) && Covers(cover, s) && m < |cover| && Straddles(cover[m], s) && |cover| < |Pack(s)|
    ensures WrapSaves(s, a, b)
  {
    hide Pack, Covers, Reports, CountBelow;
    var p := cover[m].pid;
    var i, j :| 0 <= i < |s| && 0 <= j < |s| && s[i] < p <= s[j] && Reports(cover[m], s[i]) && Reports(cover[m], s[j]);
    ReportsAcross(cover[m], s[i], s[j]);
    a, b := CountBelow(s, p), CountBelow(s, p as int - 65519);
    WindowEnds(s, p, i, j, a, b);
    MiddleCovered(s, cover, m, a, b);
  }

  /** Exactly when some list of pairs, wrapping ones included, covers the lost numbers with fewer pairs. */
  lemma ShorterIff(s: seq<U16>)
    requires Ascending(s)
    ensures (exists cover :: Covers(cover, s) && |cover| < |Pack(s)|) <==> (exists a, b :: WrapSaves(s, a, b))
  {
    hide Pack, Reported, WrapSaves, Straddles;
    if cover :| Covers(cover, s) && |cover| < |Pack(s)| {
      if m :| 0 <= m < |cover| && Straddles(cover[m], s) {
        var a, b := StraddlingSaves(s, cover, m);
      } else {
        NoStraddleNoSaving(s, cover);
      }
    }
    if a: nat, b: nat :| WrapSaves(s, a, b) {
      var cover := WrappingCover(s, a, b);
      assert Covers(cover, s);
    }
  }

  /** In particular the packing is shortest of all unless the numbers come within 16 of each other across the wrap. */
  lemma ShortestUnlessClose(s: seq<U16>, cover: seq<Pair>)
    requires Ascending(s) && Covers(cover, s)
    requires s != [] ==> s[|s| - 1] as int + 16 < 0x1_0000 + s[0] as int
    ensures |cover| >= |Pack(s)|
  {
    hide Pack, Covers, WrapSaves;
    ShorterIff(s);
    forall a: nat, b: nat ensures !WrapSaves(s, a, b) {
      SavingIsClose(s, a, b);
    }
  }

  lemma SavingIsClose(s: seq<U16>, a: nat, b: nat)
    requires Ascending(s)
    ensures WrapSaves(s, a, b) ==> s != [] && s[|s| - 1] as int + 16 >= 0x1_0000 + s[0] as int
  {
    hide Pack;
    if 0 < b <= a < |s| {
      assert s[0] <= s[b - 1] && s[a] <= s[|s| - 1];
    }
  }

  /** Wrapping can really save one: 0 and 65535 fit into one wrapping pair, and the packing uses two. */
  lemma WrappingSavesOne()
    ensures Ascending([0, 65535]) && WrapSaves([0, 65535], 1, 1)
  {
    var s: seq<U16> := [0, 65535];
    var one: seq<U16> := [65535];
    assert Span(s, 1) == 1 && s[1..] == one && Span(one, 1) == 1;
    assert one[1..] == [] && s[1..1] == [];
    assert Pack(one) == [Pair(65535, Mask(one, 1))] + Pack([]);
  }

  // ---- the packet ----

  function PairBytes(p: Pair): (b: Bytes)
    ensures |b| == 4
  {
    ToBe(p.pid, 2) + ToBe(p.blp, 2)
  }

  function AllPairBytes(ps: seq<Pair>): (b: Bytes)
    ensures |b| == 4 * |ps|
  {
    if ps == [] then [] else PairBytes(ps[0]) + AllPairBytes(ps[1..])
  }

  /** Type 205, format 1. */
  const NACK_HEADER: Bytes := [0x81, 205]

  function BuildNack(sender: U32, media: U32, s: seq<U16>): Bytes {
    if s == [] then []
    else
      var ps := Pack(s);
      NACK_HEADER + ToBe(2 + |ps|, 2) + ToBe(sender, 4) + ToBe(media, 4) + AllPairBytes(ps)
  }

  datatype Report = Report(sender: nat, media: nat, pairs: seq<Pair>)

  function Number16(b: Bytes): U16
    requires |b| == 2
  {
    FromBeBound(b);
    Widths();
    FromBe(b)
  }

  function ParsePairs(b: Bytes): Option<seq<Pair>> {
    if b == [] then Some([])
    else if |b| < 4 then None
    else
      var rest := ParsePairs(b[4..]);
      if rest.None? then None else Some([Pair(Number16(b[..2]), Number16(b[2..4]))] + rest.value)
  }

  /** The layout of section 6.1 of RFC 4585: the length counts 32-bit words minus one. */
  function ParseNack(b: Bytes): Option<Report> {
    if |b| < 12 || b[..2] != NACK_HEADER || |b| != 4 * (FromBe(b[2..4]) + 1) then None
    else
      var ps := ParsePairs(b[12..]);
      if ps.None? then None else Some(Report(FromBe(b[4..8]), FromBe(b[8..12]), ps.value))
  }

  lemma PairReadBack(p: Pair, rest: Bytes)
    ensures var b := PairBytes(p) + rest;
      b[4..] == rest && Number16(b[..2]) == p.pid && Number16(b[2..4]) == p.blp
  {
    hide ToBe, FromBe;
    var b := PairBytes(p) + rest;
    assert b[..2] == ToBe(p.pid, 2) && b[2..4] == ToBe(p.blp, 2);
    Widths();
    FromBeToBe(p.pid, 2);
    FromBeToBe(p.blp, 2);
  }

  lemma {:induction false} PairsReadBack(ps: seq<Pair>)
    ensures ParsePairs(AllPairBytes(ps)) == Some(ps)
  {
    hide PairBytes, Number16;
    if ps != [] {
      PairsReadBack(ps[1..]);
      PairReadBack(ps[0], AllPairBytes(ps[1..]));
      assert ps == [ps[0]] + ps[1..];
    }
  }

  lemma {:induction false} SpreadBound(ps: seq<Pair>)
    requires Spread(ps) && ps != []
    ensures ps[|ps| - 1].pid as int >= 17 * (|ps| - 1)
  {
    if |ps| > 1 {
      SpreadBound(ps[..|ps| - 1]);
      assert ps[|ps| - 2].pid as int + 17 <= ps[|ps| - 1].pid as int;
    }
  }

  lemma Header(l: Bytes, s: Bytes, m: Bytes, rest: Bytes)
    requires |l| == 2 && |s| == |m| == 4
    ensures var b := NACK_HEADER + l + s + m + rest;
      b[..2] == NACK_HEADER && b[2..4] == l && b[4..8] == s && b[8..12] == m && b[12..] == rest
  {
  }

  /** The receiver reads back sender, media source and, as reported numbers, exactly the lost set. */
  lemma NackRoundTrip(sender: U32, media: U32, s: seq<U16>)
    requires s != [] && Ascending(s)
    ensures var r := ParseNack(BuildNack(sender, media, s));
      && r.Some? && r.value.sender == sender && r.value.media == media
      && forall x: U16 :: Reported(r.value.pairs, x) <==> x in s
  {
    hide ToBe, FromBe, Pack, ParsePairs, AllPairBytes, Reported;
    var ps := Pack(s);
    PackSpread(s);
    if ps != [] {
      SpreadBound(ps);
    }
    Header(ToBe(2 + |ps|, 2), ToBe(sender, 4), ToBe(media, 4), AllPairBytes(ps));
    Widths();
    FromBeToBe(2 + |ps|, 2);
    FromBeToBe(sender, 4);
    FromBeToBe(media, 4);
    PairsReadBack(ps);
    forall x: U16 ensures Reported(ps, x) <==> x in s {
      PackExact(s, x);
    }
  }

  // ---- the loops ----

  method BuildNackPacket(sender: U32, media: U32, seqs: seq<U16>) returns (out: Bytes)
    ensures out == BuildNack(sender, media, seqs)
  {
    hide ToBe, Pack, AllPairBytes;
    if seqs == [] {
      return [];
    }
    var fcis := PackAll(seqs);
    var n := |fcis| / 4;
    out := NACK_HEADER + ToBe(2 + n, 2) + ToBe(sender, 4) + ToBe(media, 4) + fcis;
  }

  /** The outer loop. */
  method PackAll(seqs: seq<U16>) returns (fcis: Bytes)
    ensures fcis == AllPairBytes(Pack(seqs))
  {
    hide ToBe, Mask, Span, Pack, AllPairBytes;
    fcis := [];
    var i := 0;
    assert seqs[0..] == seqs;
    while i < |seqs|
      invariant 0 <= i <= |seqs|
      invariant fcis + AllPairBytes(Pack(seqs[i..])) == AllPairBytes(Pack(seqs))
    {
      var blp, j := PackOne(seqs, i);
      PackFirst(seqs[i..]);
      assert seqs[i..][j - i..] == seqs[j..];
      var pair := ToBe(seqs[i], 2) + ToBe(blp, 2);
      assert fcis + (pair + AllPairBytes(Pack(seqs[j..]))) == fcis + pair + AllPairBytes(Pack(seqs[j..]));
      fcis := fcis + pair;
      i := j;
    }
    PackNothing(seqs[i..]);
  }

  lemma PackFirst(s: seq<U16>)
    requires s != []
    ensures var k := Span(s, 1);
      AllPairBytes(Pack(s)) == PairBytes(Pair(s[0], Mask(s, k))) + AllPairBytes(Pack(s[k..]))
  {
    hide Mask, Span, PairBytes;
    var k := Span(s, 1);
    var p, rest := Pair(s[0], Mask(s, k)), Pack(s[k..]);
    assert ([p] + rest)[1..] == rest;
  }

  lemma PackNothing(s: seq<U16>)
    ensures s == [] ==> AllPairBytes(Pack(s)) == []
  {
  }

  /** The inner loop: the mask of the pair that starts at `i`, and where the next one starts. */
  method PackOne(seqs: seq<U16>, i: nat) returns (blp: U16, j: nat)
    requires i < |seqs|
    ensures var s := seqs[i..]; j == i + Span(s, 1) && blp == Mask(s, Span(s, 1))
  {
    hide SetBit;
    var pid := seqs[i];
    blp, j := 0, i + 1;
    ghost var s := seqs[i..];
    while j < |seqs| && 1 <= Sub16(seqs[j], pid) <= 16
      invariant i < j <= |seqs| && Span(s, j - i) == Span(s, 1)
      invariant forall m :: 1 <= m < j - i ==> 1 <= Sub16(s[m], s[0]) <= 16
      invariant blp == Mask(s, j - i)
    {
      assert s[j - i] == seqs[j];
      var diff := Sub16(seqs[j], pid);
      assert SetBit(blp, diff - 1) == Mask(s, j - i + 1);
      blp := SetBit(blp, diff - 1);
      j := j + 1;
    }
    assert j < |seqs| ==> s[j - i] == seqs[j];
  }
}
