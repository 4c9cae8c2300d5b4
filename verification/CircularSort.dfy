/** Packets of one RTP group and their circular order: src/media/rtp_assembler.cpp, `sorted_packets`. */
module CircularSort {
  import opened Wire

  datatype GroupPacket = GroupPacket(num: U16, marker: bool, slot: nat)

  /** Sequence numbers of a group differ pairwise: `queue_packet` refuses a repeated one. */
  ghost predicate DistinctNums(p: seq<GroupPacket>) {
    forall i, j :: 0 <= i < j < |p| ==> p[i].num != p[j].num
  }

  ghost predicate Ascending(p: seq<GroupPacket>) {
    forall i, j :: 0 <= i < j < |p| ==> p[i].num <= p[j].num
  }

  function InsertByNum(s: seq<GroupPacket>, x: GroupPacket): (r: seq<GroupPacket>)
    ensures multiset(r) == multiset(s) + multiset{x}
  {
    if s == [] then [x]
    else if x.num < s[0].num then [x] + s
    else
      assert s == [s[0]] + s[1..];
      [s[0]] + InsertByNum(s[1..], x)
  }

  /** `std::sort` by sequence number. */
  function SortByNum(s: seq<GroupPacket>): (r: seq<GroupPacket>)
    ensures multiset(r) == multiset(s)
  {
    if s == [] then []
    else
      assert s == s[..|s| - 1] + [s[|s| - 1]];
      InsertByNum(SortByNum(s[..|s| - 1]), s[|s| - 1])
  }

  /** `lo` is no greater than any number in `s`. */
  ghost predicate Below(lo: int, s: seq<GroupPacket>) {
    forall i :: 0 <= i < |s| ==> lo <= s[i].num
  }

  lemma PrependAscending(x: GroupPacket, s: seq<GroupPacket>, lo: int)
    requires Ascending(s) && Below(x.num, s) && lo <= x.num
    ensures Ascending([x] + s) && Below(lo, [x] + s)
  {
  }

  lemma {:induction false} InsertAscending(s: seq<GroupPacket>, x: GroupPacket, lo: int)
    requires Ascending(s) && Below(lo, s) && lo <= x.num
    ensures Ascending(InsertByNum(s, x)) && Below(lo, InsertByNum(s, x))
  {
    if s == [] {
    } else if x.num < s[0].num {
      PrependAscending(x, s, lo);
    } else {
      InsertAscending(s[1..], x, s[0].num);
      PrependAscending(s[0], InsertByNum(s[1..], x), lo);
    }
  }

  lemma SortAscending(s: seq<GroupPacket>)
    ensures Ascending(SortByNum(s))
  {
    if s != [] {
      SortAscending(s[..|s| - 1]);
      InsertAscending(SortByNum(s[..|s| - 1]), s[|s| - 1], 0);
    }
  }

  /** `(i + 1) % n` for an index `i` of a list of length `n`. */
  function CyclicNext(i: nat, n: nat): (j: nat)
    requires i < n
    ensures j < n
  {
    if i + 1 == n then 0 else i + 1
  }

  /** Circular distance from packet `i` to its successor in the cyclic list `p`. */
  function GapAfter(p: seq<GroupPacket>, i: nat): U16
    requires i < |p|
  {
    Sub16(p[CyclicNext(i, |p|)].num, p[i].num)
  }

  /** Index and size of the largest gap among the first `n`, the later one winning ties. */
  function LargestGap(p: seq<GroupPacket>, n: nat): (r: (nat, U16))
    requires n <= |p|
    ensures r.0 <= |p|
    ensures 0 < n ==> r.0 < n && r.1 == GapAfter(p, r.0)
    ensures forall i :: 0 <= i < n ==> GapAfter(p, i) <= r.1
  {
    if n == 0 then (0, 0)
    else
      var r := LargestGap(p, n - 1);
      if GapAfter(p, n - 1) >= r.1 then (n - 1, GapAfter(p, n - 1)) else r
  }

  function Rotate(p: seq<GroupPacket>, start: nat): (r: seq<GroupPacket>)
    requires start <= |p|
    ensures multiset(r) == multiset(p)
  {
    assert p == p[..start] + p[start..];
    p[start..] + p[..start]
  }

  /** `sorted_packets`: ascending, or starting right after the largest circular gap. */
  function SortedPackets(pkts: seq<GroupPacket>): (r: seq<GroupPacket>)
    ensures multiset(r) == multiset(pkts)
  {
    var p := SortByNum(pkts);
    if |p| < 2 || Sub16(p[|p| - 1].num, p[0].num) <= 0x8000 then p
    else Rotate(p, CyclicNext(LargestGap(p, |p|).0, |p|))
  }

  lemma SameElements<T(!new)>(r: seq<T>, s: seq<T>)
    requires multiset(r) == multiset(s)
    ensures |r| == |s|
    ensures forall x :: x in r <==> x in s
  {
    assert |multiset(r)| == |r| && |multiset(s)| == |s|;
    assert forall x :: x in r <==> x in multiset(r);
    assert forall x :: x in s <==> x in multiset(s);
  }

  lemma SortedPacketsDistinct(pkts: seq<GroupPacket>)
    requires DistinctNums(pkts)
    ensures DistinctNums(SortedPackets(pkts))
  {
    DistinctByMultiset(pkts, SortedPackets(pkts));
  }

  lemma DistinctByMultiset(s: seq<GroupPacket>, r: seq<GroupPacket>)
    requires multiset(r) == multiset(s)
    requires DistinctNums(s)
    ensures DistinctNums(r)
  {
    forall i, j | 0 <= i < j < |r|
      ensures r[i].num != r[j].num
    {
      if r[i].num == r[j].num {
        OccursTwice(r, i, j);
        SameElements(r, s);
        assert r[i] in r && r[j] in r;
        var a :| 0 <= a < |s| && s[a] == r[i];
        var b :| 0 <= b < |s| && s[b] == r[j];
        assert a == b;
        OccursOnce(s, a);
        assert false;
      }
    }
  }

  lemma OccursTwice(r: seq<GroupPacket>, i: nat, j: nat)
    requires i < j < |r|
    ensures r[i] == r[j] ==> multiset(r)[r[i]] >= 2
  {
    assert r == r[..i] + [r[i]] + r[i + 1..j] + [r[j]] + r[j + 1..];
  }

  lemma OccursOnce(s: seq<GroupPacket>, a: nat)
    requires a < |s| && DistinctNums(s)
    ensures multiset(s)[s[a]] == 1
  {
    assert s == s[..a] + [s[a]] + s[a + 1..];
    assert s[a] !in s[..a] && s[a] !in s[a + 1..];
  }

  /** Strictly increasing circular distance from `base`. */
  ghost predicate OrderedFrom(r: seq<GroupPacket>, base: U16) {
    forall i, j :: 0 <= i < j < |r| ==> Sub16(r[i].num, base) < Sub16(r[j].num, base)
  }

  /** Every packet lies in the half circle that starts at `base`. */
  ghost predicate InWindow(r: seq<GroupPacket>, base: U16) {
    forall i :: 0 <= i < |r| ==> Sub16(r[i].num, base) <= 0x7FFF
  }

  /** The order recovered is the sending order whenever the group fits a half circle. */
  lemma CircularOrder(pkts: seq<GroupPacket>, base: U16)
    requires DistinctNums(pkts) && InWindow(pkts, base)
    ensures OrderedFrom(SortedPackets(pkts), base)
  {
    hide SortByNum, InWindow, DistinctNums, Rotate, LargestGap, Ascending;
    var p := SortByNum(pkts);
    SortAscending(pkts);
    DistinctByMultiset(pkts, p);
    SameWindow(pkts, p, base);
    if |p| >= 2 {
      if Sub16(p[|p| - 1].num, p[0].num) <= 0x8000 {
        NoWrap(p, base);
      } else {
        Wrapped(p, base);
      }
    }
  }

  lemma SameWindow(s: seq<GroupPacket>, r: seq<GroupPacket>, base: U16)
    requires multiset(r) == multiset(s) && InWindow(s, base)
    ensures InWindow(r, base)
  {
    SameElements(r, s);
    forall i | 0 <= i < |r| ensures Sub16(r[i].num, base) <= 0x7FFF {
      assert r[i] in r;
      var a :| 0 <= a < |s| && s[a] == r[i];
    }
  }

  lemma NoWrap(p: seq<GroupPacket>, base: U16)
    requires |p| >= 2 && Ascending(p) && DistinctNums(p) && InWindow(p, base)
    requires Sub16(p[|p| - 1].num, p[0].num) <= 0x8000
    ensures OrderedFrom(p, base)
  {
    forall i, j | 0 <= i < j < |p|
      ensures Sub16(p[i].num, base) < Sub16(p[j].num, base)
    {
      assert p[0].num <= p[i].num < p[j].num <= p[|p| - 1].num;
    }
  }

  /** A wrapped group has one gap over half the circle, and it sits between the two runs. */
  lemma WidestGap(p: seq<GroupPacket>, base: U16, c: nat)
    requires Ascending(p) && DistinctNums(p) && InWindow(p, base)
    requires 0 < c < |p| && p[c - 1].num < base <= p[c].num
    ensures LargestGap(p, |p|).0 == c - 1
  {
    assert GapAfter(p, c - 1) > 0x8000;
    forall i | 0 <= i < |p| && i != c - 1
      ensures GapAfter(p, i) < 0x8000
    {
      assert i < c - 1 ==> p[i].num < p[i + 1].num <= p[c - 1].num;
      assert c <= i < |p| - 1 ==> p[c].num <= p[i].num < p[i + 1].num;
      assert i == |p| - 1 ==> p[0].num <= p[c - 1].num && p[c].num <= p[i].num;
    }
  }

  lemma RotatedOrder(p: seq<GroupPacket>, base: U16, c: nat)
    requires Ascending(p) && DistinctNums(p) && InWindow(p, base)
    requires 0 < c < |p| && p[c - 1].num < base <= p[c].num
    ensures OrderedFrom(Rotate(p, c), base)
  {
    var r, high := Rotate(p, c), |p| - c;
    forall i, j | 0 <= i < j < |r|
      ensures Sub16(r[i].num, base) < Sub16(r[j].num, base)
    {
      if j < high {
        assert p[c].num <= p[c + i].num < p[c + j].num;
      } else if high <= i {
        assert p[i - high].num < p[j - high].num <= p[c - 1].num;
      } else {
        assert p[c].num <= p[c + i].num && p[j - high].num <= p[c - 1].num;
      }
    }
  }

  lemma Straddles(a: U16, b: U16, base: U16)
    requires a <= b && Sub16(b, a) > 0x8000
    requires Sub16(a, base) <= 0x7FFF && Sub16(b, base) <= 0x7FFF
    ensures a < base <= b
  {
  }

  lemma Wrapped(p: seq<GroupPacket>, base: U16)
    requires |p| >= 2 && Ascending(p) && DistinctNums(p) && InWindow(p, base)
    requires Sub16(p[|p| - 1].num, p[0].num) > 0x8000
    ensures OrderedFrom(Rotate(p, CyclicNext(LargestGap(p, |p|).0, |p|)), base)
  {
    assert p[0].num <= p[|p| - 1].num;
    assert Sub16(p[0].num, base) <= 0x7FFF && Sub16(p[|p| - 1].num, base) <= 0x7FFF;
    Straddles(p[0].num, p[|p| - 1].num, base);
    var c := FirstHigh(p, base);
    WidestGap(p, base, c);
    RotatedOrder(p, base, c);
  }

  lemma FirstHigh(p: seq<GroupPacket>, base: U16) returns (c: nat)
    requires |p| >= 2 && p[0].num < base <= p[|p| - 1].num
    requires Ascending(p)
    ensures 0 < c < |p| && p[c - 1].num < base <= p[c].num
  {
    c := 1;
    while p[c].num < base
      invariant 0 < c < |p| && p[c - 1].num < base
      decreases |p| - c
    {
      c := c + 1;
    }
  }

  /** The source's loop over cyclic gaps, with its `>=` tie-break. */
  method ComputeSortedPackets(pkts: seq<GroupPacket>) returns (out: seq<GroupPacket>)
    ensures out == SortedPackets(pkts)
  {
    var p := SortByNum(pkts);
    if |p| < 2 || Sub16(p[|p| - 1].num, p[0].num) <= 0x8000 {
      return p;
    }
    var gapIdx, best := 0, 0;
    for i := 0 to |p|
      invariant (gapIdx, best) == LargestGap(p, i)
    {
      var gap := Sub16(p[CyclicNext(i, |p|)].num, p[i].num);
      if gap >= best {
        best, gapIdx := gap, i;
      }
    }
    var start := CyclicNext(gapIdx, |p|);
    out := p[start..] + p[..start];
  }
}
