/**
 Reordering and duplication are transparent. A sender emits access units of one SSRC with consecutive
 sequence numbers, the last packet of each unit carrying the marker. Whatever order the network delivers
 them in, the assembler has flushed, after every event, exactly the longest prefix of units that has fully
 arrived, each unit once, in sending order, with its packets in sending order.
 */
module AssemblerReordering {
  import opened Wire
  import opened CircularSort
  import opened AssemblerModel
  import opened AssemblerSteps
  import opened AssemblerInvariants
  import opened AssemblerRuns
  import opened AssemblerOutput

  // ---- the sender ----

  /** Packet `j` has sequence number `base + j`; unit `i` is the packets `starts[i]..starts[i + 1]`. */
  datatype Stream = Stream(ssrc: U32, base: U16, starts: seq<nat>, stamps: seq<U32>)

  ghost predicate WellFormed(st: Stream) {
    && |st.starts| == |st.stamps| + 1
    && st.starts[0] == 0
    && (forall i :: 0 <= i < |st.stamps| ==> UnitSized(st, i))
    && Distinct(st.stamps)
  }

  /** A unit is not empty and spans at most half the sequence number circle. */
  ghost predicate UnitSized(st: Stream, i: nat)
    requires i + 1 < |st.starts|
  {
    st.starts[i] < st.starts[i + 1] <= st.starts[i] + 0x8000
  }

  function Num(st: Stream, j: nat): U16 {
    Add16(st.base, j)
  }

  function Len(st: Stream, i: nat): int
    requires i + 1 < |st.starts|
  {
    st.starts[i + 1] as int - st.starts[i] as int
  }

  function UnitKey(st: Stream, i: nat): Key
    requires i < |st.stamps|
  {
    Key(st.ssrc, st.stamps[i])
  }

  function Packet(st: Stream, i: nat, j: nat, slot: nat): GroupPacket
    requires i + 1 < |st.starts|
  {
    GroupPacket(Num(st, j), j + 1 == st.starts[i + 1], slot)
  }

  lemma StartsGrow(st: Stream, i: nat, j: nat)
    requires WellFormed(st) && i <= j < |st.starts|
    ensures st.starts[i] <= st.starts[j]
    ensures i < j ==> st.starts[i + 1] <= st.starts[j] && st.starts[i] < st.starts[j]
    decreases j - i
  {
    if i < j {
      assert UnitSized(st, i);
      StartsGrow(st, i + 1, j);
    }
  }

  lemma NumDiff(st: Stream, a: nat, b: nat)
    requires a <= b < a + 0x1_0000
    ensures Sub16(Num(st, b), Num(st, a)) == b - a
  {
  }

  // ---- ordering by offset ----

  ghost predicate Counts(p: seq<GroupPacket>, base: U16) {
    forall t :: 0 <= t < |p| ==> Sub16(p[t].num, base) == t
  }

  lemma OffsetAtLeast(p: seq<GroupPacket>, base: U16, t: nat)
    requires OrderedFrom(p, base) && t < |p|
    ensures Sub16(p[t].num, base) >= t
  {
    if t > 0 {
      OffsetAtLeast(p, base, t - 1);
      assert Sub16(p[t - 1].num, base) < Sub16(p[t].num, base);
    }
  }

  ghost predicate HasOffset(p: seq<GroupPacket>, base: U16, d: int) {
    exists u :: 0 <= u < |p| && Sub16(p[u].num, base) == d
  }

  /** A strictly ordered list that contains all offsets below `n` and no other counts them up. */
  lemma DenseCounts(p: seq<GroupPacket>, base: U16, n: nat, t: nat)
    requires OrderedFrom(p, base) && t < n
    requires forall d :: 0 <= d < n ==> HasOffset(p, base, d)
    ensures t < |p| && Sub16(p[t].num, base) == t
  {
    if t > 0 {
      DenseCounts(p, base, n, t - 1);
    }
    assert HasOffset(p, base, t);
    var u :| 0 <= u < |p| && Sub16(p[u].num, base) == t;
    OffsetAtLeast(p, base, u);
  }

  lemma DenseAll(p: seq<GroupPacket>, base: U16, n: nat)
    requires OrderedFrom(p, base)
    requires forall d :: 0 <= d < n ==> HasOffset(p, base, d)
    requires forall t :: 0 <= t < |p| ==> Sub16(p[t].num, base) < n
    ensures |p| == n && Counts(p, base)
  {
    if n > 0 {
      DenseCounts(p, base, n, n - 1);
    }
    if |p| > n {
      OffsetAtLeast(p, base, n);
    }
    forall t | 0 <= t < |p| ensures Sub16(p[t].num, base) == t {
      DenseCounts(p, base, n, t);
    }
  }

  /** Gap-free from the base on, the list counts the offsets up. */
  lemma GapFreeCounts(p: seq<GroupPacket>, base: U16, t: nat)
    requires OrderedFrom(p, base) && GapFree(p) && t < |p| && p[0].num == base
    ensures Sub16(p[t].num, base) == t
  {
    if t > 0 {
      GapFreeCounts(p, base, t - 1);
      assert Sub16(p[t].num, p[t - 1].num) <= 1;
      assert Sub16(p[t - 1].num, base) < Sub16(p[t].num, base);
    }
  }

  lemma CountsGapFree(p: seq<GroupPacket>, base: U16)
    requires Counts(p, base)
    ensures GapFree(p)
  {
    hide Sub16;
    forall i | 0 <= i < |p| - 1 ensures Sub16(p[i + 1].num, p[i].num) <= 1 {
      NextOffset(p[i].num, p[i + 1].num, base);
    }
  }

  lemma NextOffset(a: U16, b: U16, base: U16)
    requires Sub16(b, base) == Sub16(a, base) + 1
    ensures Sub16(b, a) == 1
  {
  }

  // ---- what the assembler holds of the stream ----

  /** Offset of a sequence number inside unit `i`. */
  function Off(st: Stream, i: nat, num: U16): U16
    requires i < |st.starts|
  {
    Sub16(num, Num(st, st.starts[i]))
  }

  /** Packet `x` of the group of unit `i` is one of the arrived packets of that unit. */
  ghost predicate Belongs(st: Stream, i: nat, arrived: set<nat>, x: GroupPacket)
    requires i + 1 < |st.starts|
  {
    var d := Off(st, i, x.num);
    d < Len(st, i) && st.starts[i] + d in arrived && x.marker == (d + 1 == Len(st, i))
  }

  /** The group of unit `i` holds exactly the arrived packets of the unit. */
  ghost predicate Holding(st: Stream, i: nat, arrived: set<nat>, p: seq<GroupPacket>)
    requires i + 1 < |st.starts|
  {
    && (forall u :: 0 <= u < |p| ==> Belongs(st, i, arrived, p[u]))
    && (forall d :: 0 <= d < Len(st, i) && st.starts[i] + d in arrived ==> HasOffset(p, Num(st, st.starts[i]), d))
  }

  ghost predicate Full(st: Stream, i: nat, arrived: set<nat>)
    requires i + 1 < |st.starts|
  {
    forall j :: st.starts[i] <= j < st.starts[i + 1] ==> j in arrived
  }

  ghost predicate NoneArrived(st: Stream, i: nat, arrived: set<nat>)
    requires i + 1 < |st.starts|
  {
    forall j :: st.starts[i] <= j < st.starts[i + 1] ==> j !in arrived
  }

  /** State of unit `i`, not flushed yet. */
  ghost predicate Tracked(st: Stream, s: AssemblerState, i: nat, arrived: set<nat>)
    requires i + 1 < |st.starts| && i < |st.stamps|
  {
    var k := UnitKey(st, i);
    && k !in s.recent
    && if k in s.groups then Holding(st, i, arrived, s.groups[k].pkts) else NoneArrived(st, i, arrived)
  }

  ghost predicate IsUnit(st: Stream, m: nat, k: Key) {
    exists i :: m <= i < |st.stamps| && k == UnitKey(st, i)
  }

  /** Units below `m` are flushed; the others are tracked packet by packet. */
  ghost predicate Tracks(st: Stream, s: AssemblerState, m: nat, arrived: set<nat>) {
    && WellFormed(st) && m <= |st.stamps|
    && Anchor(s, st.ssrc).Some? && Add16(Anchor(s, st.ssrc).value, 1) == Num(st, st.starts[m])
    && (forall k :: k in s.groups && k.ssrc == st.ssrc ==> IsUnit(st, m, k))
    && (forall i :: m <= i < |st.stamps| ==> Tracked(st, s, i, arrived))
    && (forall j :: j in arrived ==> j < st.starts[m] + 0x1_0000)
    && (forall j :: 0 <= j < st.starts[m] ==> j in arrived)
  }

  lemma SortedHolding(st: Stream, i: nat, arrived: set<nat>, pkts: seq<GroupPacket>)
    requires WellFormed(st) && i < |st.stamps| && DistinctNums(pkts) && Holding(st, i, arrived, pkts)
    ensures Holding(st, i, arrived, SortedPackets(pkts))
    ensures OrderedFrom(SortedPackets(pkts), Num(st, st.starts[i]))
    ensures |SortedPackets(pkts)| == |pkts|
  {
    hide SortedPackets;
    var p, base := SortedPackets(pkts), Num(st, st.starts[i]);
    SameElements(p, pkts);
    assert UnitSized(st, i);
    forall u | 0 <= u < |p| ensures Belongs(st, i, arrived, p[u]) {
      assert p[u] in pkts;
    }
    forall d | 0 <= d < Len(st, i) && st.starts[i] + d in arrived ensures HasOffset(p, base, d) {
      assert HasOffset(pkts, base, d);
      var u :| 0 <= u < |pkts| && Sub16(pkts[u].num, base) == d;
      assert pkts[u] in p;
      var v :| 0 <= v < |p| && p[v] == pkts[u];
    }
    forall u | 0 <= u < |pkts| ensures Sub16(pkts[u].num, base) <= 0x7FFF {
      assert Belongs(st, i, arrived, pkts[u]);
    }
    CircularOrder(pkts, base);
  }

  /** The sorted packets of a fully arrived unit are the unit in sending order. */
  ghost predicate IsWhole(st: Stream, i: nat, p: seq<GroupPacket>)
    requires i + 1 < |st.starts|
  {
    && |p| == Len(st, i)
    && forall t :: 0 <= t < |p| ==> p[t].num == Num(st, st.starts[i] + t) && p[t].marker == (t + 1 == |p|)
  }

  lemma NumByOffset(st: Stream, a: nat, num: U16, d: nat)
    requires Sub16(num, Num(st, a)) == d
    ensures num == Num(st, a + d)
  {
  }

  lemma WholeByCounts(st: Stream, i: nat, arrived: set<nat>, p: seq<GroupPacket>)
    requires WellFormed(st) && i < |st.stamps|
    requires Counts(p, Num(st, st.starts[i])) && |p| == Len(st, i)
    requires forall u :: 0 <= u < |p| ==> Belongs(st, i, arrived, p[u])
    ensures IsWhole(st, i, p)
  {
    forall t | 0 <= t < |p|
      ensures p[t].num == Num(st, st.starts[i] + t) && p[t].marker == (t + 1 == |p|)
    {
      assert Belongs(st, i, arrived, p[t]) && Off(st, i, p[t].num) == t;
      NumByOffset(st, st.starts[i], p[t].num, t);
    }
  }

  /** A fully arrived unit sorts into sending order. */
  lemma FullIsWhole(st: Stream, i: nat, arrived: set<nat>, p: seq<GroupPacket>)
    requires WellFormed(st) && i < |st.stamps| && Full(st, i, arrived)
    requires Holding(st, i, arrived, p) && OrderedFrom(p, Num(st, st.starts[i]))
    ensures IsWhole(st, i, p) && Counts(p, Num(st, st.starts[i])) && p != []
  {
    var base := Num(st, st.starts[i]);
    assert UnitSized(st, i);
    forall t | 0 <= t < |p| ensures Sub16(p[t].num, base) < Len(st, i) {
      assert Belongs(st, i, arrived, p[t]);
    }
    forall d | 0 <= d < Len(st, i) ensures HasOffset(p, base, d) {
      assert st.starts[i] + d in arrived;
    }
    DenseAll(p, base, Len(st, i));
    WholeByCounts(st, i, arrived, p);
  }

  // ---- completeness of a group is arrival of the next unit ----

  lemma FirstPacketIsNext(st: Stream, m: nat, i: nat, arrived: set<nat>, x: GroupPacket)
    requires WellFormed(st) && m <= i < |st.stamps| && Belongs(st, i, arrived, x)
    requires forall j :: j in arrived ==> j < st.starts[m] + 0x1_0000
    requires x.num == Num(st, st.starts[m])
    ensures i == m && Off(st, i, x.num) == 0
  {
    hide Sub16, Num;
    var j := st.starts[i] + Off(st, i, x.num);
    NumByOffset(st, st.starts[i], x.num, Off(st, i, x.num));
    StartsGrow(st, m, i);
    NumDiff(st, st.starts[m], j);
    NumDiff(st, st.starts[m], st.starts[m]);
  }

  lemma GapFreeIsFull(st: Stream, i: nat, arrived: set<nat>, p: seq<GroupPacket>)
    requires WellFormed(st) && i < |st.stamps| && p != []
    requires Holding(st, i, arrived, p) && OrderedFrom(p, Num(st, st.starts[i]))
    requires p[0].num == Num(st, st.starts[i]) && GapFree(p) && p[|p| - 1].marker
    ensures Full(st, i, arrived) && IsWhole(st, i, p)
  {
    var base := Num(st, st.starts[i]);
    assert Counts(p, base) by {
      forall t | 0 <= t < |p| ensures Sub16(p[t].num, base) == t {
        GapFreeCounts(p, base, t);
      }
    }
    assert Belongs(st, i, arrived, p[|p| - 1]);
    WholeByCounts(st, i, arrived, p);
    forall j | st.starts[i] <= j < st.starts[i + 1] ensures j in arrived {
      assert Belongs(st, i, arrived, p[j - st.starts[i]]);
    }
  }

  lemma CompleteIsNext(st: Stream, s: AssemblerState, m: nat, arrived: set<nat>, k: Key)
    requires Valid(s) && Tracks(st, s, m, arrived)
    requires k in s.groups && k.ssrc == st.ssrc && Complete(s, k)
    ensures m < |st.stamps| && k == UnitKey(st, m) && Full(st, m, arrived)
    ensures IsWhole(st, m, SortedPackets(s.groups[k].pkts))
  {
    hide SortedPackets, GapFree, Holding;
    assert IsUnit(st, m, k);
    var i :| m <= i < |st.stamps| && k == UnitKey(st, i);
    assert Tracked(st, s, i, arrived) && ValidGroup(s.groups[k]);
    var p := SortedPackets(s.groups[k].pkts);
    SortedHolding(st, i, arrived, s.groups[k].pkts);
    HoldingAt(st, i, arrived, p, 0);
    FirstPacketIsNext(st, m, i, arrived, p[0]);
    GapFreeIsFull(st, i, arrived, p);
  }

  lemma HoldingAt(st: Stream, i: nat, arrived: set<nat>, p: seq<GroupPacket>, u: nat)
    requires i + 1 < |st.starts| && u < |p| && Holding(st, i, arrived, p)
    ensures Belongs(st, i, arrived, p[u])
  {
  }

  lemma FullIsComplete(st: Stream, s: AssemblerState, m: nat, arrived: set<nat>)
    requires Valid(s) && Tracks(st, s, m, arrived) && m < |st.stamps| && Full(st, m, arrived)
    ensures UnitKey(st, m) in s.groups && Complete(s, UnitKey(st, m))
    ensures IsWhole(st, m, SortedPackets(s.groups[UnitKey(st, m)].pkts))
  {
    hide SortedPackets, Holding;
    var k := UnitKey(st, m);
    assert Tracked(st, s, m, arrived) && UnitSized(st, m);
    assert st.starts[m] in arrived;
    assert k in s.groups && ValidGroup(s.groups[k]);
    var pkts := s.groups[k].pkts;
    var p := SortedPackets(pkts);
    SortedHolding(st, m, arrived, pkts);
    FullIsWhole(st, m, arrived, p);
    CountsGapFree(p, Num(st, st.starts[m]));
    SameElements(p, pkts);
    assert p[|p| - 1] in pkts && p[|p| - 1].marker;
  }

  // ---- each guarded step keeps track ----

  lemma UnitKeysDiffer(st: Stream, i: nat, j: nat)
    requires WellFormed(st) && i < |st.stamps| && j < |st.stamps| && i != j
    ensures UnitKey(st, i) != UnitKey(st, j)
  {
  }

  lemma WholeEnds(st: Stream, i: nat, p: seq<GroupPacket>)
    requires WellFormed(st) && i < |st.stamps| && IsWhole(st, i, p)
    ensures p != [] && LastMarkerOf(p) == Some(p[|p| - 1].num)
    ensures Add16(p[|p| - 1].num, 1) == Num(st, st.starts[i + 1])
  {
    hide Num, Add16, Distinct;
    assert UnitSized(st, i);
    NextNum(st, st.starts[i + 1] - 1);
  }

  lemma NextNum(st: Stream, j: nat)
    ensures Add16(Num(st, j), 1) == Num(st, j + 1)
  {
  }

  /** Flushing a complete group of the stream flushes unit `m`, whole and in order. */
  lemma FlushTracks(st: Stream, s: AssemblerState, m: nat, arrived: set<nat>, k: Key, now: int)
    requires Valid(s) && Tracks(st, s, m, arrived)
    requires k in s.groups && k.ssrc == st.ssrc && Complete(s, k)
    ensures m < |st.stamps| && k == UnitKey(st, m)
    ensures Tracks(st, Flush(s, k, now), m + 1, arrived)
    ensures IsWhole(st, m, FlushOutput(s, k).packets)
  {
    hide SortedPackets, Complete, IsWhole, Holding, LastMarkerOf, Valid;
    CompleteIsNext(st, s, m, arrived, k);
    WholeEnds(st, m, SortedPackets(s.groups[k].pkts));
    var r := Flush(s, k, now);
    StartsGrow(st, m, m + 1);
    forall i | m + 1 <= i < |st.stamps| ensures Tracked(st, r, i, arrived) {
      UnitKeysDiffer(st, i, m);
      assert Tracked(st, s, i, arrived);
    }
    forall k' | k' in r.groups && k'.ssrc == st.ssrc ensures IsUnit(st, m + 1, k') {
      assert IsUnit(st, m, k');
      var i :| m <= i < |st.stamps| && k' == UnitKey(st, i);
      assert i != m;
    }
  }

  lemma ArmTracks(c: Config, st: Stream, s: AssemblerState, m: nat, arrived: set<nat>, k: Key, now: int)
    requires Tracks(st, s, m, arrived) && k in s.groups
    ensures Tracks(st, Arm(c, s, k, now), m, arrived)
  {
    hide Holding;
    var r := Arm(c, s, k, now);
    forall i | m <= i < |st.stamps| ensures Tracked(st, r, i, arrived) {
      assert Tracked(st, s, i, arrived);
    }
  }

  /** A step on other SSRCs. */
  lemma ElsewhereTracks(c: Config, st: Stream, s: AssemblerState, m: nat, arrived: set<nat>, t: Step)
    requires Tracks(st, s, m, arrived) && Legal(c, s, t) && Elsewhere(t, st.ssrc)
    ensures Tracks(st, Apply(c, s, t), m, arrived)
  {
    hide Holding, Complete, SortedPackets, LastMarkerOf;
    var r := Apply(c, s, t);
    assert Anchor(r, st.ssrc) == Anchor(s, st.ssrc);
    assert forall k: Key :: k.ssrc == st.ssrc ==>
      (k in r.groups <==> k in s.groups) && (k in s.groups ==> r.groups[k] == s.groups[k]);
    forall i | m <= i < |st.stamps| ensures Tracked(st, r, i, arrived) {
      assert Tracked(st, s, i, arrived);
    }
  }

  // ---- the next unit is first in line ----

  ghost predicate HeadFirst(s: seq<Rank>) {
    forall i :: 0 <= i < |s| ==> !Before(s[i], s[0])
  }

  lemma StableInsertHead(s: seq<Rank>, e: Rank)
    requires HeadFirst(s)
    ensures StableInsert(s, e) != [] && HeadFirst(StableInsert(s, e))
  {
    if s == [] {
    } else if !Before(e, s[|s| - 1]) {
      assert !Before(s[|s| - 1], s[0]);
    } else {
      var init, last := s[..|s| - 1], s[|s| - 1];
      StableInsertHead(init, e);
      StableInsertElements(init, e);
      var r := StableInsert(init, e);
      assert e in multiset(r);
      var i :| 0 <= i < |r| && r[i] == e;
      assert !Before(e, r[0]);
    }
  }

  lemma StableSortHead(s: seq<Rank>)
    ensures HeadFirst(StableSort(s)) && |StableSort(s)| == |s|
  {
    if s != [] {
      StableSortHead(s[..|s| - 1]);
      StableInsertHead(StableSort(s[..|s| - 1]), s[|s| - 1]);
    }
    StableSortElements(s);
    SameElements(StableSort(s), s);
  }

  lemma FirstInLine(s: AssemblerState, ssrc: U32, k: Key)
    requires Valid(s) && k in s.groups && k.ssrc == ssrc
    requires forall k' :: k' in s.groups && k'.ssrc == ssrc && k' != k ==> Before(RankOf(s, k), RankOf(s, k'))
    ensures OrderedKeys(s, ssrc) != [] && OrderedKeys(s, ssrc)[0] == k
  {
    hide RankOf;
    var ranks := Ranks(s, ssrc, s.groupOrder);
    RanksSound(s, ssrc, s.groupOrder);
    StableSortHead(ranks);
    StableSortElements(ranks);
    SameElements(StableSort(ranks), ranks);
    var sorted := StableSort(ranks);
    assert RankOf(s, k) in sorted;
    var i :| 0 <= i < |sorted| && sorted[i] == RankOf(s, k);
    assert !Before(sorted[i], sorted[0]);
    assert sorted[0] in ranks;
  }

  /** Distance of a pending unit from the anchor, without wrap-around. */
  lemma UnitRank(st: Stream, s: AssemblerState, m: nat, arrived: set<nat>, i: nat)
    requires Valid(s) && Tracks(st, s, m, arrived) && m <= i < |st.stamps| && UnitKey(st, i) in s.groups
    ensures var d := RankOf(s, UnitKey(st, i)).dist; st.starts[i] <= st.starts[m] + d < st.starts[i + 1]
  {
    hide Sub16, Num, Add16, Holding, SortedPackets;
    var k := UnitKey(st, i);
    assert Tracked(st, s, i, arrived) && ValidGroup(s.groups[k]);
    var p := SortedPackets(s.groups[k].pkts);
    SortedHolding(st, i, arrived, s.groups[k].pkts);
    HoldingAt(st, i, arrived, p, 0);
    var j := st.starts[i] + Off(st, i, p[0].num);
    assert j in arrived;
    NumByOffset(st, st.starts[i], p[0].num, Off(st, i, p[0].num));
    StartsGrow(st, m, i);
    NumDiff(st, st.starts[m], j);
  }

  lemma HeadIsNext(st: Stream, s: AssemblerState, m: nat, arrived: set<nat>)
    requires Valid(s) && Tracks(st, s, m, arrived) && m < |st.stamps| && UnitKey(st, m) in s.groups
    ensures OrderedKeys(s, st.ssrc) != [] && OrderedKeys(s, st.ssrc)[0] == UnitKey(st, m)
  {
    hide RankOf, OrderedKeys, Valid;
    var k := UnitKey(st, m);
    UnitRank(st, s, m, arrived, m);
    forall k' | k' in s.groups && k'.ssrc == st.ssrc && k' != k ensures Before(RankOf(s, k), RankOf(s, k')) {
      assert IsUnit(st, m, k');
      var i :| m <= i < |st.stamps| && k' == UnitKey(st, i);
      UnitRank(st, s, m, arrived, i);
      StartsGrow(st, m, i);
    }
    FirstInLine(s, st.ssrc, k);
  }

  // ---- arrival of a packet ----

  ghost predicate InUnit(st: Stream, i: nat, j: nat) {
    i + 1 < |st.starts| && st.starts[i] <= j < st.starts[i + 1]
  }

  lemma UnitsDisjoint(st: Stream, i: nat, h: nat, j: nat)
    requires WellFormed(st) && InUnit(st, i, j) && InUnit(st, h, j)
    ensures i == h
  {
    if i < h {
      StartsGrow(st, i, h);
    } else if h < i {
      StartsGrow(st, h, i);
    }
  }

  lemma OffsetOfPacket(st: Stream, i: nat, j: nat)
    requires WellFormed(st) && i < |st.stamps| && InUnit(st, i, j)
    ensures Off(st, i, Num(st, j)) == j - st.starts[i]
  {
    assert UnitSized(st, i);
    NumDiff(st, st.starts[i], j);
  }

  /** A packet whose number is already in the group has already arrived. */
  lemma HeldHasArrived(st: Stream, i: nat, j: nat, arrived: set<nat>, p: seq<GroupPacket>, u: nat)
    requires WellFormed(st) && i < |st.stamps| && InUnit(st, i, j) && Holding(st, i, arrived, p)
    requires u < |p| && p[u].num == Num(st, j)
    ensures j in arrived
  {
    hide Num, Sub16;
    OffsetOfPacket(st, i, j);
    HoldingAt(st, i, arrived, p, u);
  }

  lemma AddToUnit(st: Stream, i: nat, j: nat, arrived: set<nat>, p: seq<GroupPacket>, slot: nat)
    requires WellFormed(st) && i < |st.stamps| && InUnit(st, i, j)
    requires Holding(st, i, arrived, p) || (p == [] && NoneArrived(st, i, arrived))
    ensures Holding(st, i, arrived + {j}, p + [Packet(st, i, j, slot)])
  {
    hide Num, Sub16;
    var x, q, all, base := Packet(st, i, j, slot), p + [Packet(st, i, j, slot)], arrived + {j}, Num(st, st.starts[i]);
    OffsetOfPacket(st, i, j);
    assert Belongs(st, i, all, x);
    forall u | 0 <= u < |q| ensures Belongs(st, i, all, q[u]) {
      assert u < |p| ==> Belongs(st, i, arrived, p[u]);
    }
    forall d | 0 <= d < Len(st, i) && st.starts[i] + d in all ensures HasOffset(q, base, d) {
      if st.starts[i] + d == j {
        assert Sub16(q[|p|].num, base) == d;
      } else {
        assert HasOffset(p, base, d);
        var u :| 0 <= u < |p| && Sub16(p[u].num, base) == d;
        assert Sub16(q[u].num, base) == d;
      }
    }
  }

  lemma OtherUnit(st: Stream, i: nat, h: nat, j: nat, arrived: set<nat>, p: seq<GroupPacket>)
    requires WellFormed(st) && i < |st.stamps| && h < |st.stamps| && InUnit(st, i, j) && h != i
    ensures Holding(st, h, arrived, p) ==> Holding(st, h, arrived + {j}, p)
    ensures NoneArrived(st, h, arrived) ==> NoneArrived(st, h, arrived + {j})
  {
    hide Num, Sub16;
    if InUnit(st, h, j) {
      UnitsDisjoint(st, i, h, j);
    }
    if Holding(st, h, arrived, p) {
      forall u | 0 <= u < |p| ensures Belongs(st, h, arrived + {j}, p[u]) {
        assert Belongs(st, h, arrived, p[u]);
      }
    }
  }

  /** State and arrived set after the first step of `queue_packet` for packet `j` of unit `i`. */
  lemma AdmitTracks(c: Config, st: Stream, s: AssemblerState, m: nat, arrived: set<nat>,
                    i: nat, j: nat, slot: nat, now: int)
    requires Tracks(st, s, m, arrived) && m <= i < |st.stamps| && InUnit(st, i, j)
    requires j < st.starts[m] + 0x1_0000
    ensures var t := Admit(s, UnitKey(st, i), Packet(st, i, j, slot), now);
            Legal(c, s, t) && Tracks(st, Apply(c, s, t), m, arrived + {j}) && UnitKey(st, i) in Apply(c, s, t).groups
  {
    hide Holding, Num;
    var k, x := UnitKey(st, i), Packet(st, i, j, slot);
    assert Tracked(st, s, i, arrived);
    if Holds(s, k, x.num) {
      var u :| 0 <= u < |s.groups[k].pkts| && s.groups[k].pkts[u].num == x.num;
      HeldHasArrived(st, i, j, arrived, s.groups[k].pkts, u);
      assert arrived + {j} == arrived;
      assert forall h :: m <= h < |st.stamps| ==>
        (Tracked(st, s, h, arrived) <==> Tracked(st, GiveBack(s, slot), h, arrived));
    } else {
      var r := AddPacket(s, k, x, now);
      forall h | m <= h < |st.stamps| ensures Tracked(st, r, h, arrived + {j}) {
        assert Tracked(st, s, h, arrived);
        if h == i {
          AddToUnit(st, i, j, arrived, if k in s.groups then s.groups[k].pkts else [], slot);
          assert [] + [x] == [x];
        } else {
          UnitKeysDiffer(st, h, i);
          OtherUnit(st, i, h, j, arrived, if UnitKey(st, h) in s.groups then s.groups[UnitKey(st, h)].pkts else []);
        }
      }
      forall k' | k' in r.groups && k'.ssrc == st.ssrc ensures IsUnit(st, m, k') {
        if k' == k {
          assert k' == UnitKey(st, i);
        }
      }
    }
  }

  // ---- operations ----

  /** Output `o` is unit `i`: all its packets, in sending order, reported complete. */
  ghost predicate Delivered(st: Stream, i: nat, o: Output)
    requires i + 1 < |st.starts| && i < |st.stamps|
  {
    o.Flushed? && o.key == UnitKey(st, i) && IsWhole(st, i, o.packets) && !o.incomplete
  }

  ghost predicate UnitsInOrder(st: Stream, l: seq<Output>)
    requires WellFormed(st)
  {
    |l| <= |st.stamps| && forall i :: 0 <= i < |l| ==> Delivered(st, i, l[i])
  }

  /** Since `before`, the log of the SSRC grew by units 0 to `m - 1`, in this order. */
  ghost predicate LogIs(st: Stream, s: AssemblerState, before: seq<Output>, m: nat)
    requires WellFormed(st)
  {
    var l := SsrcLog(s.log, st.ssrc);
    |l| == |before| + m && before <= l && UnitsInOrder(st, l[|before|..])
  }

  ghost predicate Synced(st: Stream, s: AssemblerState, before: seq<Output>, m: nat, arrived: set<nat>) {
    Valid(s) && Tracks(st, s, m, arrived) && LogIs(st, s, before, m)
  }

  /** The first unit that is not flushed has not fully arrived. */
  ghost predicate Waiting(st: Stream, m: nat, arrived: set<nat>)
    requires WellFormed(st)
  {
    m < |st.stamps| ==> !Full(st, m, arrived)
  }

  lemma FlushSynced(st: Stream, s: AssemblerState, before: seq<Output>, m: nat, arrived: set<nat>, k: Key, now: int)
    requires Synced(st, s, before, m, arrived) && now > 0
    requires k in s.groups && k.ssrc == st.ssrc && Complete(s, k)
    ensures m < |st.stamps| && Synced(st, Flush(s, k, now), before, m + 1, arrived)
  {
    hide SortedPackets, Complete, IsWhole, Tracks, Valid, SsrcLog, WellFlushed;
    TracksForm(st, s, m, arrived);
    FlushTracks(st, s, m, arrived, k, now);
    RetireKeepsValid(s, k, now);
    FlushValid(s, k, now);
    FlushComplete(s, k);
    var l, o := SsrcLog(s.log, st.ssrc), FlushOutput(s, k);
    SsrcLogAppend(s.log, o, st.ssrc);
    assert Delivered(st, m, o);
    assert (l + [o])[|before|..] == l[|before|..] + [o];
  }

  lemma FlushComplete(s: AssemblerState, k: Key)
    requires Valid(s) && k in s.groups && Complete(s, k)
    ensures !FlushOutput(s, k).incomplete
  {
    FlushIsWell(s, k);
  }

  lemma FlushValid(s: AssemblerState, k: Key, now: int)
    requires k in s.groups && Valid(Retire(s, k, now))
    ensures Valid(Flush(s, k, now))
  {
    hide SortedPackets, LastMarkerOf;
  }

  lemma ArmSynced(c: Config, st: Stream, s: AssemblerState, before: seq<Output>, m: nat, arrived: set<nat>,
                  k: Key, now: int)
    requires Synced(st, s, before, m, arrived) && now > 0 && k in s.groups && s.groups[k].deadline == 0
    ensures Synced(st, Arm(c, s, k, now), before, m, arrived)
  {
    hide Tracks, SsrcLog, UnitsInOrder;
    TracksForm(st, s, m, arrived);
    ArmTracks(c, st, s, m, arrived, k, now);
    StepKeepsValid(c, s, SArm(k, now));
  }

  lemma ArmUnmarkedSynced(c: Config, st: Stream, s: AssemblerState, before: seq<Output>, m: nat, arrived: set<nat>,
                          keys: seq<Key>, now: int)
    requires Synced(st, s, before, m, arrived) && now > 0
    ensures Synced(st, ArmUnmarked(c, s, keys, now), before, m, arrived)
    decreases keys
  {
    hide Synced;
    if keys != [] {
      var k := keys[0];
      if k in s.groups && !s.groups[k].hasMarker && s.groups[k].deadline == 0 {
        ArmSynced(c, st, s, before, m, arrived, k, now);
        ArmUnmarkedSynced(c, st, Arm(c, s, k, now), before, m, arrived, keys[1..], now);
      } else {
        ArmUnmarkedSynced(c, st, s, before, m, arrived, keys[1..], now);
      }
    }
  }

  /** `flush_ready` stops only when the next unit has not fully arrived. */
  lemma FlushReadySynced(c: Config, st: Stream, s: AssemblerState, before: seq<Output>, m: nat, arrived: set<nat>,
                         now: int)
    returns (m': nat)
    requires Synced(st, s, before, m, arrived) && now > 0
    ensures Synced(st, FlushReady(c, s, st.ssrc, now), before, m', arrived) && Waiting(st, m', arrived)
    decreases |s.groups|
  {
    hide Complete, OrderedKeys, Full, Tracks, Valid, LogIs, IsWhole, SortedPackets, Flush, Arm, Distinct;
    var keys := OrderedKeys(s, st.ssrc);
    OrderedKeysMembers(s, st.ssrc);
    assert WellFormed(st) by { TracksForm(st, s, m, arrived); }
    m' := m;
    if m < |st.stamps| && Full(st, m, arrived) {
      FullIsComplete(st, s, m, arrived);
      HeadIsNext(st, s, m, arrived);
    }
    if keys != [] {
      assert keys[0] in keys;
      var k := keys[0];
      if !Complete(s, k) {
        if s.groups[k].deadline == 0 {
          ArmSynced(c, st, s, before, m, arrived, k, now);
        }
      } else {
        FlushSynced(st, s, before, m, arrived, k, now);
        FlushShrinks(s, k, now);
        m' := FlushReadySynced(c, st, Flush(s, k, now), before, m + 1, arrived, now);
      }
    }
  }

  lemma TracksForm(st: Stream, s: AssemblerState, m: nat, arrived: set<nat>)
    requires Tracks(st, s, m, arrived)
    ensures WellFormed(st) && m <= |st.stamps|
  {
  }

  lemma SettleSynced(c: Config, st: Stream, s: AssemblerState, before: seq<Output>, m: nat, arrived: set<nat>,
                     i: nat, now: int)
    returns (m': nat)
    requires Synced(st, s, before, m, arrived) && now > 0
    requires m <= i < |st.stamps| && UnitKey(st, i) in s.groups
    requires m < |st.stamps| && Full(st, m, arrived) ==> i == m
    ensures Synced(st, Settle(c, s, UnitKey(st, i), now), before, m', arrived) && Waiting(st, m', arrived)
  {
    hide Complete, OrderedKeys, Full, Tracks, Valid, LogIs, FlushReady, ArmUnmarked;
    var k := UnitKey(st, i);
    var keys := OrderedKeys(s, st.ssrc);
    var earlier := keys[..IndexOf(keys, k)];
    var s1 := ArmUnmarked(c, s, earlier, now);
    assert WellFormed(st) by { TracksForm(st, s, m, arrived); }
    ArmUnmarkedSynced(c, st, s, before, m, arrived, earlier, now);
    m' := m;
    if Full(st, m, arrived) {
      HeadIsNext(st, s, m, arrived);
      FullIsComplete(st, s1, m, arrived);
      assert earlier == [];
    }
    if !Blocked(s1, earlier) {
      if !Complete(s1, k) {
        if s1.groups[k].deadline == 0 {
          ArmSynced(c, st, s1, before, m, arrived, k, now);
        }
      } else {
        FlushSynced(st, s1, before, m, arrived, k, now);
        m' := FlushReadySynced(c, st, Flush(s1, k, now), before, m + 1, arrived, now);
      }
    }
  }

  /** `queue_packet` for packet `j` of unit `i`. */
  lemma QueueSynced(c: Config, st: Stream, s: AssemblerState, before: seq<Output>, m: nat, arrived: set<nat>,
                    i: nat, j: nat, slot: nat, now: int)
    returns (m': nat)
    requires c.codec == Avc && now > 0 && Synced(st, s, before, m, arrived) && Waiting(st, m, arrived)
    requires i < |st.stamps| && InUnit(st, i, j) && j < st.starts[m] + 0x1_0000
    requires i < m ==> UnitKey(st, i) in s.recent
    ensures Synced(st, QueuePacket(c, s, UnitKey(st, i), Packet(st, i, j, slot), now), before, m', arrived + {j})
    ensures Waiting(st, m', arrived + {j})
  {
    hide Tracks, Valid, LogIs, Settle, Holds, AddPacket;
    var k, x := UnitKey(st, i), Packet(st, i, j, slot);
    TracksForm(st, s, m, arrived);
    m' := m;
    if i < m {
      StartsGrow(st, i, m);
      FlushedArrived(st, s, m, arrived, j);
      assert arrived + {j} == arrived;
      GiveBackSynced(st, s, before, m, arrived, slot);
    } else {
      NotRecent(st, s, m, arrived, i);
      var t := Admit(s, k, x, now);
      AdmitTracks(c, st, s, m, arrived, i, j, slot, now);
      StepKeepsValid(c, s, t);
      var s1 := Apply(c, s, t);
      AdmitLog(c, st, s, before, m, t);
      if m < |st.stamps| && Full(st, m, arrived + {j}) {
        OnlyThatUnit(st, m, i, j, arrived);
        FullIsComplete(st, s1, m, arrived + {j});
        CompleteIsMarked(s1, k);
      }
      if s1.groups[k].hasMarker {
        m' := SettleSynced(c, st, s1, before, m, arrived + {j}, i, now);
      }
    }
  }

  lemma FlushedArrived(st: Stream, s: AssemblerState, m: nat, arrived: set<nat>, j: nat)
    requires Tracks(st, s, m, arrived) && j < st.starts[m]
    ensures j in arrived
  {
  }

  lemma NotRecent(st: Stream, s: AssemblerState, m: nat, arrived: set<nat>, i: nat)
    requires Tracks(st, s, m, arrived) && m <= i < |st.stamps|
    ensures UnitKey(st, i) !in s.recent
  {
    assert Tracked(st, s, i, arrived);
  }

  lemma GiveBackSynced(st: Stream, s: AssemblerState, before: seq<Output>, m: nat, arrived: set<nat>, slot: nat)
    requires Synced(st, s, before, m, arrived)
    ensures Synced(st, GiveBack(s, slot), before, m, arrived)
  {
    hide Holding;
    var r := GiveBack(s, slot);
    forall i | m <= i < |st.stamps| ensures Tracked(st, r, i, arrived) {
      assert Tracked(st, s, i, arrived);
    }
  }

  lemma AdmitLog(c: Config, st: Stream, s: AssemblerState, before: seq<Output>, m: nat, t: Step)
    requires WellFormed(st) && LogIs(st, s, before, m) && Legal(c, s, t) && (t.SGiveBack? || t.SAdd?)
    ensures LogIs(st, Apply(c, s, t), before, m)
  {
  }

  lemma OnlyThatUnit(st: Stream, m: nat, i: nat, j: nat, arrived: set<nat>)
    requires WellFormed(st) && m < |st.stamps| && i < |st.stamps| && InUnit(st, i, j)
    requires !Full(st, m, arrived) && Full(st, m, arrived + {j})
    ensures i == m
  {
    var x :| st.starts[m] <= x < st.starts[m + 1] && x !in arrived;
    assert x in arrived + {j};
    UnitsDisjoint(st, i, m, j);
  }

  lemma ElsewhereSynced(c: Config, st: Stream, s: AssemblerState, before: seq<Output>, m: nat, arrived: set<nat>,
                        ts: seq<Step>, r: AssemblerState, now: int)
    requires Synced(st, s, before, m, arrived) && now > 0
    requires Runs(c, s, ts, r) && AllAt(ts, now) && AllElsewhere(ts, st.ssrc)
    ensures Synced(st, r, before, m, arrived)
    decreases ts
  {
    hide Tracks, Valid, LogIs, Legal, Apply;
    if ts != [] {
      TracksForm(st, s, m, arrived);
      StepKeepsValid(c, s, ts[0]);
      ElsewhereTracks(c, st, s, m, arrived, ts[0]);
      ElsewhereLog(c, st, s, before, m, ts[0]);
      ElsewhereSynced(c, st, Apply(c, s, ts[0]), before, m, arrived, ts[1..], r, now);
    }
  }

  lemma ElsewhereLog(c: Config, st: Stream, s: AssemblerState, before: seq<Output>, m: nat, t: Step)
    requires WellFormed(st) && LogIs(st, s, before, m) && Legal(c, s, t) && Elsewhere(t, st.ssrc)
    ensures LogIs(st, Apply(c, s, t), before, m)
  {
    hide SortedPackets, LastMarkerOf, UnitsInOrder, SsrcLog, Complete;
    match t
    case SFlush(k, now) => SsrcLogAppend(s.log, FlushOutput(s, k), st.ssrc);
    case SDrop(k, reason, now) => SsrcLogAppend(s.log, Drop(s, k, reason, now).log[|s.log|], st.ssrc);
    case _ =>
  }

  // ---- runs ----

  /** Event `e` delivers packet `id.1` of unit `id.0`. */
  ghost predicate Delivers(st: Stream, e: Event, id: (nat, nat)) {
    && e.Queue? && id.0 < |st.stamps| && InUnit(st, id.0, id.1)
    && e.key == UnitKey(st, id.0) && e.p == Packet(st, id.0, id.1, e.p.slot)
  }

  /**
   What the theorem asks of an event, when `m` units are flushed: a packet of the SSRC is a packet of the
   stream less than a full circle ahead of the anchor, a duplicate of a flushed unit is still remembered as
   such, and no group of the SSRC times out. Events of other SSRCs are free.
   */
  ghost predicate Orderly(c: Config, st: Stream, s: AssemblerState, m: nat, e: Event, id: (nat, nat))
    requires WellFormed(st)
  {
    match e
    case Queue(k, p, now) =>
      k.ssrc == st.ssrc ==>
        && Delivers(st, e, id)
        && m <= |st.stamps| && id.1 < st.starts[m] + 0x1_0000
        && (id.0 < m ==> k in s.recent)
    case Evict(now) => NoTimeout(c, s, st.ssrc, now)
    case ResetAll(_) => false
    case _ => true
  }

  ghost function Arrives(st: Stream, e: Event, id: (nat, nat)): set<nat> {
    if e.Queue? && e.key.ssrc == st.ssrc then {id.1} else {}
  }

  /** Packets of the stream delivered by the first `t` events. */
  ghost function Arrived(st: Stream, es: seq<Event>, ids: seq<(nat, nat)>, t: nat): set<nat>
    requires t <= |es| == |ids|
  {
    if t == 0 then {} else Arrived(st, es, ids, t - 1) + Arrives(st, es[t - 1], ids[t - 1])
  }

  lemma NextSynced(c: Config, st: Stream, w: System, before: seq<Output>, m: nat, arrived: set<nat>,
                   e: Event, id: (nat, nat))
    returns (m': nat)
    requires c.codec == Avc && e.now > 0 && Synced(st, w.a, before, m, arrived) && Waiting(st, m, arrived)
    requires Orderly(c, st, w.a, m, e, id)
    ensures Synced(st, Next(c, w, e).a, before, m', arrived + Arrives(st, e, id))
    ensures Waiting(st, m', arrived + Arrives(st, e, id))
  {
    hide QueuePacket, EvictStale, Synced, Waiting, WellFormed;
    m' := m;
    match e
    case Queue(k, p, now) =>
      if k.ssrc == st.ssrc {
        m' := QueueSynced(c, st, w.a, before, m, arrived, id.0, id.1, p.slot, now);
      } else {
        assert arrived + {} == arrived;
        var us := QueuePacketRuns(c, w.a, k, p, now);
        var ts := [Admit(w.a, k, p, now)] + us;
        ElsewhereSynced(c, st, w.a, before, m, arrived, ts, Next(c, w, e).a, now);
      }
    case Evict(now) =>
      assert arrived + {} == arrived;
      var ts := EvictStaleRuns(c, w.a, st.ssrc, now);
      ElsewhereSynced(c, st, w.a, before, m, arrived, ts, Next(c, w, e).a, now);
    case Release(slot, _) =>
      assert arrived + {} == arrived;
      GiveBackSynced(st, w.a, before, m, arrived, slot);
    case Acquire(_) =>
      assert arrived + {} == arrived;
      AcquireSynced(c, st, w, before, m, arrived, e);
  }

  lemma AcquireSynced(c: Config, st: Stream, w: System, before: seq<Output>, m: nat, arrived: set<nat>, e: Event)
    requires Synced(st, w.a, before, m, arrived) && e.Acquire?
    ensures Synced(st, Next(c, w, e).a, before, m, arrived)
  {
    hide Holding;
    var r := Next(c, w, e).a;
    forall i | m <= i < |st.stamps| ensures Tracked(st, r, i, arrived) {
      assert Tracked(st, w.a, i, arrived);
    }
  }

  /** Units flushed for the SSRC since the log was `before`. */
  ghost function FlushCount(st: Stream, s: AssemblerState, before: seq<Output>): int {
    |SsrcLog(s.log, st.ssrc)| - |before|
  }

  /** An AVC assembler that has an anchor for the SSRC and holds nothing of the stream to come. */
  ghost predicate Ready(c: Config, st: Stream, s: AssemblerState) {
    && c.codec == Avc && Valid(s) && WellFormed(st)
    && Anchor(s, st.ssrc).Some? && Add16(Anchor(s, st.ssrc).value, 1) == st.base
    && (forall k :: k in s.groups ==> k.ssrc != st.ssrc)
    && (forall i :: 0 <= i < |st.stamps| ==> UnitKey(st, i) !in s.recent)
  }

  ghost predicate OrderlyRun(c: Config, st: Stream, ws: seq<System>, es: seq<Event>, ids: seq<(nat, nat)>)
    requires WellFormed(st) && |ws| == |es| + 1 == |ids| + 1
  {
    forall i :: 0 <= i < |es| ==>
      var m := FlushCount(st, ws[i].a, SsrcLog(ws[0].a.log, st.ssrc));
      m >= 0 ==> Orderly(c, st, ws[i].a, m, es[i], ids[i])
  }

  lemma OrderlyAt(c: Config, st: Stream, ws: seq<System>, es: seq<Event>, ids: seq<(nat, nat)>, i: nat, m: nat)
    requires WellFormed(st) && |ws| == |es| + 1 == |ids| + 1 && i < |es| && OrderlyRun(c, st, ws, es, ids)
    requires FlushCount(st, ws[i].a, SsrcLog(ws[0].a.log, st.ssrc)) == m
    ensures Orderly(c, st, ws[i].a, m, es[i], ids[i])
  {
    assert ids[i] == ids[i];
  }

  lemma ReadySynced(c: Config, st: Stream, s: AssemblerState)
    requires Ready(c, st, s)
    ensures Synced(st, s, SsrcLog(s.log, st.ssrc), 0, {}) && Waiting(st, 0, {})
  {
    var none: set<nat> := {};
    if |st.stamps| > 0 {
      assert UnitSized(st, 0);
      assert st.starts[0] !in none;
    }
  }

  /**
   Reordering is transparent: after any number `t` of orderly events, the units flushed since the start are
   exactly the first `m`, in order and whole, where `m` is the largest number of leading units that have
   fully arrived.
   */
  lemma ReorderingTransparent(c: Config, st: Stream, ws: seq<System>, es: seq<Event>, ids: seq<(nat, nat)>, t: nat)
    returns (m: nat)
    requires Trace(c, ws, es) && |ids| == |es| && t < |ws|
    requires Ready(c, st, ws[0].a) && OrderlyRun(c, st, ws, es, ids)
    ensures m <= |st.stamps| && LogIs(st, ws[t].a, SsrcLog(ws[0].a.log, st.ssrc), m)
    ensures forall j :: 0 <= j < st.starts[m] ==> j in Arrived(st, es, ids, t)
    ensures m < |st.stamps| ==> !Full(st, m, Arrived(st, es, ids, t))
  {
    m := TransparentUpTo(c, st, ws, es, ids, t);
  }

  lemma TransparentUpTo(c: Config, st: Stream, ws: seq<System>, es: seq<Event>, ids: seq<(nat, nat)>, t: nat)
    returns (m: nat)
    requires Trace(c, ws, es) && |ids| == |es| && t < |ws|
    requires Ready(c, st, ws[0].a) && OrderlyRun(c, st, ws, es, ids)
    ensures Synced(st, ws[t].a, SsrcLog(ws[0].a.log, st.ssrc), m, Arrived(st, es, ids, t))
    ensures Waiting(st, m, Arrived(st, es, ids, t))
  {
    hide Next, Tracks, Valid, Waiting, Orderly, UnitsInOrder, SsrcLog, WellFormed;
    if t == 0 {
      m := 0;
      ReadySynced(c, st, ws[0].a);
    } else {
      var m0 := TransparentUpTo(c, st, ws, es, ids, t - 1);
      OrderlyAt(c, st, ws, es, ids, t - 1, m0);
      assert ws[t] == Next(c, ws[t - 1], es[t - 1]);
      var before, arrived := SsrcLog(ws[0].a.log, st.ssrc), Arrived(st, es, ids, t - 1);
      m := NextSynced(c, st, ws[t - 1], before, m0, arrived, es[t - 1], ids[t - 1]);
    }
  }

  /** An assembler that has just flushed up to the stream, and the slots in the caller's hands. */
  ghost function JustBefore(st: Stream, held: multiset<nat>): System {
    System(AssemblerState(map[], [], [], map[], map[st.ssrc := Sub16(st.base, 1)], [], []), held)
  }

  lemma JustBeforeReady(c: Config, st: Stream, held: multiset<nat>)
    requires c.codec == Avc && WellFormed(st)
    ensures Ready(c, st, JustBefore(st, held).a) && FlushCount(st, JustBefore(st, held).a, []) == 0
  {
  }

  /** What the theorem asks for can be met, whichever packet of the first full circle the network delivers first. */
  lemma AnyFirstArrivalOrderly(c: Config, st: Stream, i: nat, j: nat, slot: nat, now: int)
    returns (ws: seq<System>, es: seq<Event>, ids: seq<(nat, nat)>)
    requires c.codec == Avc && WellFormed(st) && i < |st.stamps| && InUnit(st, i, j) && j < 0x1_0000 && now > 0
    ensures |es| == 1 && Trace(c, ws, es) && |ids| == 1 && Ready(c, st, ws[0].a) && OrderlyRun(c, st, ws, es, ids)
    ensures Arrived(st, es, ids, 1) == {j}
  {
    hide Next, Ready, Num, UnitSized, Distinct;
    var w := JustBefore(st, multiset{slot});
    var e := Queue(UnitKey(st, i), Packet(st, i, j, slot), now);
    es, ids, ws := [e], [(i, j)], [w, Next(c, w, e)];
    JustBeforeReady(c, st, multiset{slot});
    assert Arrived(st, es, ids, 0) == {};
    assert Arrives(st, es[0], ids[0]) == {j};
  }

  /** Packet 1 arrives before packet 0. */
  ghost function Swapped(st: Stream, now: int): seq<Event>
    requires 2 <= |st.starts| && 0 < |st.stamps|
  {
    [Queue(UnitKey(st, 0), Packet(st, 0, 1, 1), now), Queue(UnitKey(st, 0), Packet(st, 0, 0, 0), now)]
  }

  lemma SwappedOrderly(c: Config, st: Stream, now: int, ws: seq<System>)
    requires c.codec == Avc && WellFormed(st) && |st.stamps| > 0 && st.starts[1] == 2 && now > 0
    requires Trace(c, ws, Swapped(st, now)) && ws[0] == JustBefore(st, multiset{0, 1})
    ensures Ready(c, st, ws[0].a) && OrderlyRun(c, st, ws, Swapped(st, now), [(0, 1), (0, 0)])
  {
    hide Next, Synced, SsrcLog, Ready, JustBefore, Waiting, UnitSized, Distinct, Clocked, FlushCount, Orderly;
    var es, ids: seq<(nat, nat)> := Swapped(st, now), [(0, 1), (0, 0)];
    var before := SsrcLog(ws[0].a.log, st.ssrc);
    JustBeforeReady(c, st, multiset{0, 1});
    ReadySynced(c, st, ws[0].a);
    NothingYet(st, ws[0].a, before, 0, {});
    SwappedPacket(c, st, ws[0].a, now, 0);
    var m := NextSynced(c, st, ws[0], before, 0, {}, es[0], ids[0]);
    assert ws[1] == Next(c, ws[0], es[0]);
    NothingYet(st, ws[1].a, before, m, {} + Arrives(st, es[0], ids[0]));
    SwappedPacket(c, st, ws[1].a, now, 1);
  }

  lemma SwappedPacket(c: Config, st: Stream, s: AssemblerState, now: int, i: nat)
    requires WellFormed(st) && |st.stamps| > 0 && st.starts[1] == 2 && i < 2
    ensures Orderly(c, st, s, 0, Swapped(st, now)[i], (0, 1 - i))
  {
  }

  lemma NothingYet(st: Stream, s: AssemblerState, before: seq<Output>, m: nat, arrived: set<nat>)
    requires Synced(st, s, before, m, arrived) && 0 !in arrived
    ensures m == 0 && FlushCount(st, s, before) == 0
  {
    if m > 0 {
      StartsGrow(st, 0, m);
    }
  }

  /** The two packets of the first unit arrive in the wrong order, and the unit is flushed whole and in order. */
  lemma SwappedUnitFlushed(c: Config, st: Stream, now: int)
    returns (ws: seq<System>, es: seq<Event>, ids: seq<(nat, nat)>)
    requires c.codec == Avc && WellFormed(st) && |st.stamps| > 0 && st.starts[1] == 2 && now > 0
    ensures |es| == 2 && Trace(c, ws, es) && ids == [(0, 1), (0, 0)]
    ensures Ready(c, st, ws[0].a) && OrderlyRun(c, st, ws, es, ids)
    ensures LogIs(st, ws[2].a, SsrcLog(ws[0].a.log, st.ssrc), 1)
  {
    hide Next, LogIs, OrderlyRun, Ready, SsrcLog, Arrived, UnitSized, Distinct, Full;
    var w := JustBefore(st, multiset{0, 1});
    es, ids := Swapped(st, now), [(0, 1), (0, 0)];
    var v := Next(c, w, es[0]);
    assert 0 in v.held by { OneHanded(c, w, es[0]); }
    ws := [w, v, Next(c, v, es[1])];
    SwappedOrderly(c, st, now, ws);
    var n := ReorderingTransparent(c, st, ws, es, ids, 2);
    assert Arrived(st, es, ids, 2) == {0, 1} by { BothArrived(st, now); }
    FirstTwo(st, n, Arrived(st, es, ids, 2));
  }

  lemma OneHanded(c: Config, w: System, e: Event)
    requires w.held == multiset{0, 1} && e.Queue? && e.p.slot == 1
    ensures 0 in Next(c, w, e).held
  {
  }

  lemma BothArrived(st: Stream, now: int)
    requires 2 <= |st.starts| && 0 < |st.stamps|
    ensures Arrived(st, Swapped(st, now), [(0, 1), (0, 0)], 2) == {0, 1}
  {
    var ids: seq<(nat, nat)> := [(0, 1), (0, 0)];
    assert Arrived(st, Swapped(st, now), ids, 0) == {} && Arrived(st, Swapped(st, now), ids, 1) == {1};
  }

  lemma FirstTwo(st: Stream, m: nat, arrived: set<nat>)
    requires WellFormed(st) && 0 < |st.stamps| && m <= |st.stamps| && st.starts[1] == 2
    requires 0 in arrived && 1 in arrived && 2 !in arrived
    requires forall j :: 0 <= j < st.starts[m] ==> j in arrived
    requires m < |st.stamps| ==> !Full(st, m, arrived)
    ensures m == 1
  {
    if m > 1 {
      StartsGrow(st, 1, m);
    }
  }
}
