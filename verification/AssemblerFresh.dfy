/**
 An SSRC nothing has been flushed for has no anchor, so the first flush is not compared with anything. It is
 decided by the unit of the first packet to arrive: that unit is flushed as soon as what has arrived of it is a
 suffix of the unit, and nothing else of the SSRC is flushed before it.
 */
module AssemblerFresh {
  import opened Wire
  import opened CircularSort
  import opened AssemblerModel
  import opened AssemblerSteps
  import opened AssemblerInvariants
  import opened AssemblerRuns
  import opened AssemblerOutput
  import opened AssemblerReordering
  import opened AssemblerRelease

  // ---- a unit without its first packets ----

  /** What has arrived of unit `i` is its packets from `a` on. */
  ghost predicate SuffixFrom(st: Stream, i: nat, arrived: set<nat>, a: nat)
    requires i + 1 < |st.starts|
  {
    InUnit(st, i, a) && forall j :: st.starts[i] <= j < st.starts[i + 1] ==> (j in arrived <==> a <= j)
  }

  ghost predicate Suffix(st: Stream, i: nat, arrived: set<nat>)
    requires i + 1 < |st.starts|
  {
    exists a :: SuffixFrom(st, i, arrived, a)
  }

  /** The packets of unit `i` from `a` on, as a stream of their own. */
  function Cut(st: Stream, i: nat, a: nat): Stream
    requires i < |st.stamps| && i + 1 < |st.starts| && a <= st.starts[i + 1]
  {
    Stream(st.ssrc, Num(st, a), [0, st.starts[i + 1] - a], [st.stamps[i]])
  }

  lemma CutForm(st: Stream, i: nat, a: nat)
    requires WellFormed(st) && i < |st.stamps| && InUnit(st, i, a)
    ensures WellFormed(Cut(st, i, a)) && UnitKey(Cut(st, i, a), 0) == UnitKey(st, i)
    ensures Len(Cut(st, i, a), 0) == st.starts[i + 1] - a
  {
    assert UnitSized(st, i);
    assert UnitSized(Cut(st, i, a), 0);
  }

  ghost predicate ArrivedAt(arrived: set<nat>, a: nat, d: nat) {
    a + d in arrived
  }

  /** The arrived packets among the `n` from `a` on, counted from `a`. */
  ghost function Shift(arrived: set<nat>, a: nat, n: nat): set<nat> {
    set d: nat | d < n && ArrivedAt(arrived, a, d)
  }

  lemma CutOffset(st: Stream, i: nat, a: nat, num: U16)
    requires WellFormed(st) && i < |st.stamps| && InUnit(st, i, a)
    requires Off(st, i, num) < Len(st, i) && a <= st.starts[i] + Off(st, i, num)
    ensures Off(Cut(st, i, a), 0, num) == st.starts[i] + Off(st, i, num) - a
  {
    hide Num, Sub16;
    var j := st.starts[i] + Off(st, i, num);
    NumByOffset(st, st.starts[i], num, Off(st, i, num));
    assert UnitSized(st, i);
    NumDiff(st, a, j);
    assert Num(Cut(st, i, a), 0) == Num(st, a) by { CutBase(st, i, a); }
  }

  lemma CutBase(st: Stream, i: nat, a: nat)
    requires i < |st.stamps| && InUnit(st, i, a)
    ensures Num(Cut(st, i, a), 0) == Num(st, a)
  {
  }

  lemma CutHolding(st: Stream, i: nat, a: nat, arrived: set<nat>, p: seq<GroupPacket>)
    requires WellFormed(st) && i < |st.stamps| && InUnit(st, i, a) && Holding(st, i, arrived, p)
    requires forall j :: st.starts[i] <= j < st.starts[i + 1] && j in arrived ==> a <= j
    ensures Holding(Cut(st, i, a), 0, Shift(arrived, a, st.starts[i + 1] - a), p)
  {
    hide Num, Sub16;
    var cut, n := Cut(st, i, a), st.starts[i + 1] - a;
    var part, base := Shift(arrived, a, n), Num(st, st.starts[i]);
    CutForm(st, i, a);
    forall u | 0 <= u < |p| ensures Belongs(cut, 0, part, p[u]) {
      assert Belongs(st, i, arrived, p[u]);
      CutOffset(st, i, a, p[u].num);
    }
    forall d | 0 <= d < n && d in part ensures HasOffset(p, Num(cut, 0), d) {
      assert HasOffset(p, base, a + d - st.starts[i]);
      var u :| 0 <= u < |p| && Sub16(p[u].num, base) == a + d - st.starts[i];
      assert Belongs(st, i, arrived, p[u]);
      CutOffset(st, i, a, p[u].num);
    }
  }

  // ---- without an anchor, complete means suffix ----

  /** What is missing before the first packet held is not missed. */
  lemma CompleteIsSuffix(st: Stream, s: AssemblerState, i: nat, arrived: set<nat>) returns (a: nat)
    requires Valid(s) && WellFormed(st) && i < |st.stamps| && Tracked(st, s, i, arrived)
    requires UnitKey(st, i) in s.groups && Complete(s, UnitKey(st, i))
    ensures SuffixFrom(st, i, arrived, a)
  {
    hide SortedPackets, GapFree, Holding, Num, Sub16;
    var pkts := s.groups[UnitKey(st, i)].pkts;
    assert ValidGroup(s.groups[UnitKey(st, i)]);
    var p := SortedPackets(pkts);
    SortedHolding(st, i, arrived, pkts);
    HoldingAt(st, i, arrived, p, 0);
    a := st.starts[i] + Off(st, i, p[0].num);
    NothingBefore(st, i, arrived, p);
    CutHolding(st, i, a, arrived, pkts);
    CutForm(st, i, a);
    var cut, part := Cut(st, i, a), Shift(arrived, a, st.starts[i + 1] - a);
    SortedHolding(cut, 0, part, pkts);
    NumByOffset(st, st.starts[i], p[0].num, Off(st, i, p[0].num));
    CutBase(st, i, a);
    GapFreeIsFull(cut, 0, part, p);
    forall j | a <= j < st.starts[i + 1] ensures j in arrived {
      assert j - a in part;
    }
  }

  lemma NothingBefore(st: Stream, i: nat, arrived: set<nat>, p: seq<GroupPacket>)
    requires WellFormed(st) && i < |st.stamps| && p != []
    requires Holding(st, i, arrived, p) && OrderedFrom(p, Num(st, st.starts[i]))
    ensures forall j :: st.starts[i] <= j < st.starts[i + 1] && j in arrived ==>
              st.starts[i] + Off(st, i, p[0].num) <= j
  {
    var base := Num(st, st.starts[i]);
    forall j | st.starts[i] <= j < st.starts[i + 1] && j in arrived
      ensures st.starts[i] + Off(st, i, p[0].num) <= j
    {
      var d := j - st.starts[i];
      assert st.starts[i] + d in arrived;
      assert HasOffset(p, base, d);
      var u :| 0 <= u < |p| && Sub16(p[u].num, base) == d;
    }
  }

  lemma SuffixIsComplete(st: Stream, s: AssemblerState, i: nat, arrived: set<nat>, a: nat)
    requires Valid(s) && WellFormed(st) && i < |st.stamps| && Tracked(st, s, i, arrived)
    requires Anchor(s, st.ssrc).None? && SuffixFrom(st, i, arrived, a)
    ensures UnitKey(st, i) in s.groups && Complete(s, UnitKey(st, i))
    ensures IsWhole(Cut(st, i, a), 0, SortedPackets(s.groups[UnitKey(st, i)].pkts))
  {
    hide SortedPackets, Holding, Num, Sub16;
    var k := UnitKey(st, i);
    assert a in arrived;
    assert k in s.groups && ValidGroup(s.groups[k]);
    var pkts := s.groups[k].pkts;
    var p, cut, part := SortedPackets(pkts), Cut(st, i, a), Shift(arrived, a, st.starts[i + 1] - a);
    CutForm(st, i, a);
    CutHolding(st, i, a, arrived, pkts);
    SortedHolding(cut, 0, part, pkts);
    assert Full(cut, 0, part);
    FullIsWhole(cut, 0, part, p);
    CountsGapFree(p, Num(cut, 0));
    SameElements(p, pkts);
    assert p[|p| - 1] in pkts && p[|p| - 1].marker;
  }

  // ---- the first group to arrive is first in line ----

  /** `k` is the first key of its SSRC in the list. */
  ghost predicate Leads(order: seq<Key>, k: Key) {
    order != [] && (order[0] == k || (order[0].ssrc != k.ssrc && Leads(order[1..], k)))
  }

  ghost predicate NoneOf(order: seq<Key>, ssrc: U32) {
    forall i :: 0 <= i < |order| ==> order[i].ssrc != ssrc
  }

  lemma LeadsAppend(order: seq<Key>, x: Key, k: Key)
    requires Leads(order, k) || (NoneOf(order, k.ssrc) && x == k)
    ensures Leads(order + [x], k)
  {
    if order != [] {
      assert (order + [x])[1..] == order[1..] + [x];
      if order[0] != k {
        LeadsAppend(order[1..], x, k);
      }
    }
  }

  lemma LeadsRemove(order: seq<Key>, x: Key, k: Key)
    requires Leads(order, k) && x.ssrc != k.ssrc
    ensures Leads(Remove(order, x), k)
  {
    if order[0] != k {
      LeadsRemove(order[1..], x, k);
    }
    if order[0] != x {
      assert Remove(order, x) == [order[0]] + Remove(order[1..], x);
    }
  }

  lemma LeadsAt(order: seq<Key>, k: Key) returns (i: nat)
    requires Leads(order, k)
    ensures i < |order| && order[i] == k && NoneOf(order[..i], k.ssrc)
  {
    if order[0] == k {
      i := 0;
    } else {
      var h := LeadsAt(order[1..], k);
      i := h + 1;
      assert order[..i] == [order[0]] + order[1..][..h];
    }
  }

  lemma RanksNone(s: AssemblerState, ssrc: U32, order: seq<Key>)
    requires NoneOf(order, ssrc)
    ensures Ranks(s, ssrc, order) == []
  {
  }

  lemma {:induction false} RanksFirst(s: AssemblerState, order: seq<Key>, i: nat)
    requires i < |order| && order[i] in s.groups && NoneOf(order[..i], order[i].ssrc)
    ensures Ranks(s, order[i].ssrc, order) != [] && Ranks(s, order[i].ssrc, order)[0] == RankOf(s, order[i])
  {
    hide RankOf;
    var init := order[..|order| - 1];
    if i < |init| {
      assert init[..i] == order[..i];
      RanksFirst(s, init, i);
    } else {
      RanksNone(s, order[i].ssrc, init);
    }
  }

  lemma {:induction false} StableInsertBehind(s: seq<Rank>, e: Rank)
    requires s != [] && !Before(e, s[0])
    ensures StableInsert(s, e) != [] && StableInsert(s, e)[0] == s[0]
  {
    if Before(e, s[|s| - 1]) {
      StableInsertBehind(s[..|s| - 1], e);
    }
  }

  lemma {:induction false} StableSortFirst(s: seq<Rank>)
    requires s != [] && HeadFirst(s)
    ensures StableSort(s) != [] && StableSort(s)[0] == s[0]
  {
    hide StableInsert;
    var init := s[..|s| - 1];
    if init == [] {
      assert StableSort(s) == StableInsert([], s[0]);
      InsertFirst(s[0]);
    } else {
      StableSortFirst(init);
      StableInsertBehind(StableSort(init), s[|s| - 1]);
    }
  }

  lemma InsertFirst(e: Rank)
    ensures StableInsert([], e) == [e]
  {
  }

  /** `k` arrived no later than any other group of its SSRC, and before those that arrived at the same time. */
  ghost predicate Leading(s: AssemblerState, k: Key) {
    && k in s.groups && Leads(s.groupOrder, k)
    && forall k' :: k' in s.groups && k'.ssrc == k.ssrc ==> s.groups[k].arrival <= s.groups[k'].arrival
  }

  lemma LeadingIsFirst(s: AssemblerState, k: Key)
    requires Leading(s, k) && Anchor(s, k.ssrc).None?
    ensures OrderedKeys(s, k.ssrc) != [] && OrderedKeys(s, k.ssrc)[0] == k
  {
    var i := LeadsAt(s.groupOrder, k);
    RanksFirst(s, s.groupOrder, i);
    RanksSound(s, k.ssrc, s.groupOrder);
    var ranks := Ranks(s, k.ssrc, s.groupOrder);
    forall h | 0 <= h < |ranks| ensures !Before(ranks[h], ranks[0]) {
      assert ranks[h] in ranks;
    }
    StableSortFirst(ranks);
  }

  lemma StepLeading(c: Config, s: AssemblerState, t: Step, k: Key)
    requires Legal(c, s, t) && Leading(s, k) && (t.SAdd? ==> s.groups[k].arrival <= t.now)
    requires t.SFlush? || t.SDrop? ==> t.key.ssrc != k.ssrc
    ensures Leading(Apply(c, s, t), k) && Apply(c, s, t).groups[k].arrival == s.groups[k].arrival
  {
    hide Leads, Complete, SortedPackets, LastMarkerOf;
    if t.SAdd? {
      LeadsAppend(s.groupOrder, t.key, k);
    } else if t.SFlush? || t.SDrop? {
      LeadsRemove(s.groupOrder, t.key, k);
    }
  }

  // ---- before the first flush ----

  /** The same state with the anchor the stream would continue. */
  ghost function Anchored(st: Stream, s: AssemblerState): AssemblerState {
    s.(lastMarker := s.lastMarker[st.ssrc := Sub16(st.base, 1)])
  }

  lemma AnchoredStep(c: Config, st: Stream, s: AssemblerState, t: Step)
    requires Legal(c, s, t) && (t.SAdd? || t.SArm? || Elsewhere(t, st.ssrc))
    ensures Legal(c, Anchored(st, s), t) && Apply(c, Anchored(st, s), t) == Anchored(st, Apply(c, s, t))
    ensures Anchor(Apply(c, s, t), st.ssrc) == Anchor(s, st.ssrc)
  {
    hide SortedPackets, LastMarkerOf, GapFree;
    match t
    case SFlush(k, now) => AnchoredRetire(st, s, k, now);
    case SDrop(k, reason, now) => AnchoredRetire(st, s, k, now);
    case _ =>
  }

  lemma AnchoredRetire(st: Stream, s: AssemblerState, k: Key, now: int)
    requires k in s.groups && k.ssrc != st.ssrc
    ensures Flush(Anchored(st, s), k, now) == Anchored(st, Flush(s, k, now))
    ensures forall reason :: Drop(Anchored(st, s), k, reason, now) == Anchored(st, Drop(s, k, reason, now))
  {
    hide SortedPackets, LastMarkerOf, GapFree;
    assert Flush(Anchored(st, s), k, now).lastMarker == Anchored(st, Flush(s, k, now)).lastMarker;
    forall reason ensures Drop(Anchored(st, s), k, reason, now) == Anchored(st, Drop(s, k, reason, now)) {
      assert Drop(Anchored(st, s), k, reason, now).lastMarker == Anchored(st, Drop(s, k, reason, now)).lastMarker;
    }
  }

  /** Without an anchor, with `arrived` held and nothing flushed; unit `u` arrived first. */
  ghost predicate Entered(st: Stream, s: AssemblerState, before: seq<Output>, u: nat, arrived: set<nat>, clock: int) {
    && Anchor(s, st.ssrc).None? && Synced(st, Anchored(st, s), before, 0, arrived)
    && u < |st.stamps| && Leading(s, UnitKey(st, u)) && s.groups[UnitKey(st, u)].arrival <= clock
  }

  /** A group that has its marker and is still pending waits for its repair deadline. */
  ghost predicate Held(s: AssemblerState, k: Key) {
    k in s.groups && (s.groups[k].hasMarker ==> s.groups[k].deadline != 0)
  }

  ghost predicate Unopened(st: Stream, s: AssemblerState, before: seq<Output>, first: Option<nat>, arrived: set<nat>,
                           clock: int)
  {
    match first
    case None =>
      && Anchor(s, st.ssrc).None? && Synced(st, Anchored(st, s), before, 0, arrived)
      && arrived == {} && forall k :: k in s.groups ==> k.ssrc != st.ssrc
    case Some(u) =>
      Entered(st, s, before, u, arrived, clock) && Held(s, UnitKey(st, u))
  }

  lemma StepSynced(c: Config, st: Stream, s: AssemblerState, before: seq<Output>, arrived: set<nat>, t: Step, now: int)
    requires Synced(st, Anchored(st, s), before, 0, arrived) && now > 0
    requires Legal(c, s, t) && Elsewhere(t, st.ssrc) && (t.SGiveBack? || t.now == now)
    ensures Synced(st, Anchored(st, Apply(c, s, t)), before, 0, arrived)
  {
    hide Synced, Apply, Legal, Elsewhere;
    AnchoredStep(c, st, s, t);
    var s' := Anchored(st, s);
    assert [t][1..] == [];
    ElsewhereSynced(c, st, s', before, 0, arrived, [t], Apply(c, s', t), now);
  }

  lemma ElsewhereUnopened(c: Config, st: Stream, s: AssemblerState, before: seq<Output>, first: Option<nat>,
                          arrived: set<nat>, clock: int, ts: seq<Step>, r: AssemblerState, now: int)
    requires Unopened(st, s, before, first, arrived, clock) && clock <= now && now > 0
    requires Runs(c, s, ts, r) && AllAt(ts, now) && AllElsewhere(ts, st.ssrc)
    ensures Unopened(st, r, before, first, arrived, now)
    decreases ts
  {
    hide Apply, Legal, Synced, Leading, Anchored;
    if ts != [] {
      var t := ts[0];
      StepSynced(c, st, s, before, arrived, t, now);
      AnchoredStep(c, st, s, t);
      ElsewhereSame(c, s, t, st.ssrc);
      if first.Some? {
        StepLeading(c, s, t, UnitKey(st, first.value));
      }
      ElsewhereUnopened(c, st, Apply(c, s, t), before, first, arrived, now, ts[1..], r, now);
    }
  }

  // ---- an arrival ----

  lemma ArmEntered(c: Config, st: Stream, s: AssemblerState, before: seq<Output>, u: nat, arrived: set<nat>,
                   k: Key, now: int)
    requires Entered(st, s, before, u, arrived, now) && now > 0 && k in s.groups && s.groups[k].deadline == 0
    ensures Entered(st, Arm(c, s, k, now), before, u, arrived, now)
    ensures Held(s, UnitKey(st, u)) || k == UnitKey(st, u) ==> Held(Arm(c, s, k, now), UnitKey(st, u))
  {
    hide Synced, Leading;
    ArmSynced(c, st, Anchored(st, s), before, 0, arrived, k, now);
    StepLeading(c, s, SArm(k, now), UnitKey(st, u));
  }

  lemma ArmUnmarkedEntered(c: Config, st: Stream, s: AssemblerState, before: seq<Output>, u: nat, arrived: set<nat>,
                           keys: seq<Key>, now: int)
    requires Entered(st, s, before, u, arrived, now) && now > 0 && Held(s, UnitKey(st, u))
    ensures var r := ArmUnmarked(c, s, keys, now);
      && Entered(st, r, before, u, arrived, now) && Held(r, UnitKey(st, u))
      && (s.groups[UnitKey(st, u)].deadline != 0 || UnitKey(st, u) in keys ==> r.groups[UnitKey(st, u)].deadline != 0)
    decreases keys
  {
    hide Entered;
    if keys != [] {
      var k := keys[0];
      if k in s.groups && !s.groups[k].hasMarker && s.groups[k].deadline == 0 {
        ArmEntered(c, st, s, before, u, arrived, k, now);
        ArmUnmarkedEntered(c, st, Arm(c, s, k, now), before, u, arrived, keys[1..], now);
      } else {
        ArmUnmarkedEntered(c, st, s, before, u, arrived, keys[1..], now);
      }
    }
  }

  /** As long as unit `u` is pending, every other group of the SSRC is blocked behind it. */
  lemma OthersBlocked(c: Config, st: Stream, s: AssemblerState, before: seq<Output>, u: nat, arrived: set<nat>,
                      k: Key, now: int)
    requires Entered(st, s, before, u, arrived, now) && now > 0 && Held(s, UnitKey(st, u))
    requires k in s.groups && k.ssrc == st.ssrc && k != UnitKey(st, u)
    ensures Unopened(st, Settle(c, s, k, now), before, Some(u), arrived, now)
  {
    hide Complete, OrderedKeys, Synced, FlushReady, Flush, ArmUnmarked;
    var keys := OrderedKeys(s, st.ssrc);
    LeadingIsFirst(s, UnitKey(st, u));
    var earlier := keys[..IndexOf(keys, k)];
    assert earlier != [] && earlier[0] == UnitKey(st, u);
    ArmUnmarkedEntered(c, st, s, before, u, arrived, earlier, now);
    assert Blocked(ArmUnmarked(c, s, earlier, now), earlier);
  }

  lemma FirstSettles(c: Config, st: Stream, s: AssemblerState, before: seq<Output>, u: nat, arrived: set<nat>, now: int)
    requires Entered(st, s, before, u, arrived, now) && now > 0
    ensures var k := UnitKey(st, u);
      if Complete(s, k) then Settle(c, s, k, now) == FlushReady(c, Flush(s, k, now), st.ssrc, now)
      else Unopened(st, Settle(c, s, k, now), before, Some(u), arrived, now)
  {
    hide Complete, OrderedKeys, Synced, FlushReady, Flush, Leading;
    var k := UnitKey(st, u);
    assert k in s.groups by { LeadingPending(s, k); }
    LeadingIsFirst(s, k);
    assert OrderedKeys(s, st.ssrc)[..0] == [];
    if !Complete(s, k) && s.groups[k].deadline == 0 {
      ArmEntered(c, st, s, before, u, arrived, k, now);
    }
  }

  lemma LeadingPending(s: AssemblerState, k: Key)
    requires Leading(s, k)
    ensures k in s.groups
  {
  }

  ghost function UnitOfFirst(first: Option<nat>, i: nat): nat {
    if first.Some? then first.value else i
  }

  /** The arriving packet joins its group; if nothing had arrived, its unit is the first. */
  lemma AdmitEntered(c: Config, st: Stream, s: AssemblerState, before: seq<Output>, first: Option<nat>,
                     arrived: set<nat>, clock: int, i: nat, j: nat, slot: nat, now: int)
    requires Unopened(st, s, before, first, arrived, clock) && clock <= now && now > 0
    requires i < |st.stamps| && InUnit(st, i, j) && j < 0x1_0000
    ensures var t, u := Admit(s, UnitKey(st, i), Packet(st, i, j, slot), now), UnitOfFirst(first, i);
      && UnitKey(st, i) !in s.recent && Legal(c, s, t) && UnitKey(st, i) in Apply(c, s, t).groups
      && Entered(st, Apply(c, s, t), before, u, arrived + {j}, now)
      && (u != i ==> Held(Apply(c, s, t), UnitKey(st, u)))
  {
    hide Tracks, Valid, LogIs, Leading;
    var k, x, s' := UnitKey(st, i), Packet(st, i, j, slot), Anchored(st, s);
    var t := Admit(s, k, x, now);
    TracksForm(st, s', 0, arrived);
    NotRecent(st, s', 0, arrived, i);
    AdmitTracks(c, st, s', 0, arrived, i, j, slot, now);
    AdmitSame(c, st, s, k, x, now);
    StepKeepsValid(c, s', t);
    AdmitLog(c, st, s', before, 0, t);
    if first.Some? {
      UnitKeys(st, i, first.value);
      StepLeading(c, s, t, UnitKey(st, first.value));
    } else {
      assert t.SAdd?;
      FirstLeads(st, s, k, x, now);
    }
  }

  lemma UnitKeys(st: Stream, i: nat, h: nat)
    requires WellFormed(st) && i < |st.stamps| && h < |st.stamps|
    ensures UnitKey(st, i) == UnitKey(st, h) <==> i == h
  {
    if i != h {
      UnitKeysDiffer(st, i, h);
    }
  }

  lemma AdmitSame(c: Config, st: Stream, s: AssemblerState, k: Key, x: GroupPacket, now: int)
    ensures var t := Admit(s, k, x, now);
      && Admit(Anchored(st, s), k, x, now) == t && Legal(c, s, t) && Legal(c, Anchored(st, s), t)
      && Apply(c, Anchored(st, s), t) == Anchored(st, Apply(c, s, t))
      && Anchor(Apply(c, s, t), st.ssrc) == Anchor(s, st.ssrc)
  {
    AnchoredStep(c, st, s, Admit(s, k, x, now));
  }

  lemma FirstLeads(st: Stream, s: AssemblerState, k: Key, x: GroupPacket, now: int)
    requires Valid(Anchored(st, s)) && forall k' :: k' in s.groups ==> k'.ssrc != k.ssrc
    ensures Leading(AddPacket(s, k, x, now), k) && AddPacket(s, k, x, now).groups[k].arrival == now
  {
    LeadsAppend(s.groupOrder, k, k);
  }

  lemma OtherArrival(st: Stream, u: nat, i: nat, j: nat, arrived: set<nat>)
    requires WellFormed(st) && u < |st.stamps| && i < |st.stamps| && u != i && InUnit(st, i, j)
    ensures Suffix(st, u, arrived + {j}) <==> Suffix(st, u, arrived)
  {
    if InUnit(st, u, j) {
      UnitsDisjoint(st, u, i, j);
    }
    var all := arrived + {j};
    assert forall x :: st.starts[u] <= x < st.starts[u + 1] ==> (x in all <==> x in arrived);
    if a :| SuffixFrom(st, u, arrived, a) {
      assert SuffixFrom(st, u, all, a);
    }
    if a :| SuffixFrom(st, u, all, a) {
      assert SuffixFrom(st, u, arrived, a);
    }
  }

  lemma EnteredTracks(st: Stream, s: AssemblerState, before: seq<Output>, u: nat, arrived: set<nat>, clock: int)
    requires Entered(st, s, before, u, arrived, clock)
    ensures Valid(s) && WellFormed(st) && u < |st.stamps| && Tracked(st, s, u, arrived) && UnitKey(st, u) in s.groups
  {
    hide Holding;
    assert Tracked(st, Anchored(st, s), u, arrived);
  }

  /**
   A packet arrives before the first flush. Nothing is flushed, or what has arrived of the first unit is now a
   suffix of it and that unit is flushed.
   */
  lemma QueueUnopened(c: Config, st: Stream, s: AssemblerState, before: seq<Output>, first: Option<nat>,
                      arrived: set<nat>, clock: int, i: nat, j: nat, slot: nat, now: int)
    returns (s1: AssemblerState)
    requires c.codec == Avc && Unopened(st, s, before, first, arrived, clock) && clock <= now && now > 0
    requires i < |st.stamps| && InUnit(st, i, j) && j < 0x1_0000
    requires first.Some? ==> !Suffix(st, first.value, arrived)
    ensures WellFormed(st)
    ensures var r, u := QueuePacket(c, s, UnitKey(st, i), Packet(st, i, j, slot), now), UnitOfFirst(first, i);
      && Entered(st, s1, before, u, arrived + {j}, now)
      && if Suffix(st, u, arrived + {j}) then r == FlushReady(c, Flush(s1, UnitKey(st, u), now), st.ssrc, now)
         else Unopened(st, r, before, Some(u), arrived + {j}, now)
  {
    hide Entered, Settle, Suffix, Holds, AddPacket, Valid, WellFormed, Tracked, Complete;
    var k, x, u := UnitKey(st, i), Packet(st, i, j, slot), UnitOfFirst(first, i);
    AdmitEntered(c, st, s, before, first, arrived, clock, i, j, slot, now);
    s1 := Apply(c, s, Admit(s, k, x, now));
    EnteredTracks(st, s1, before, u, arrived + {j}, now);
    if i == u {
      SuffixIffComplete(st, s1, before, u, arrived + {j}, now);
      FirstSettles(c, st, s1, before, u, arrived + {j}, now);
    } else {
      OtherArrival(st, u, i, j, arrived);
      UnitKeys(st, i, u);
      OthersBlocked(c, st, s1, before, u, arrived + {j}, k, now);
    }
  }

  lemma SuffixIffComplete(st: Stream, s: AssemblerState, before: seq<Output>, u: nat, arrived: set<nat>, clock: int)
    requires Entered(st, s, before, u, arrived, clock)
    ensures WellFormed(st) && UnitKey(st, u) in s.groups
    ensures Suffix(st, u, arrived) <==> Complete(s, UnitKey(st, u))
    ensures Suffix(st, u, arrived) ==> s.groups[UnitKey(st, u)].hasMarker
  {
    hide Complete, Valid, Tracked, SuffixFrom;
    EnteredTracks(st, s, before, u, arrived, clock);
    if Suffix(st, u, arrived) {
      var a :| SuffixFrom(st, u, arrived, a);
      SuffixIsComplete(st, s, u, arrived, a);
      CompleteIsMarked(s, UnitKey(st, u));
    }
    if Complete(s, UnitKey(st, u)) {
      var a := CompleteIsSuffix(st, s, u, arrived);
    }
  }

  // ---- the first flush ----

  /** The first entry of the log since `before` is unit `i` from packet `a` on, reported complete. */
  ghost predicate StartsWith(st: Stream, s: AssemblerState, before: seq<Output>, i: nat, a: nat)
    requires i < |st.stamps| && i + 1 < |st.starts| && a <= st.starts[i + 1]
  {
    var l := SsrcLog(s.log, st.ssrc);
    before < l && Delivered(Cut(st, i, a), 0, l[|before|])
  }

  lemma {:induction false} SsrcLogGrows(log: seq<Output>, more: seq<Output>, ssrc: U32)
    requires log <= more
    ensures SsrcLog(log, ssrc) <= SsrcLog(more, ssrc)
    decreases more
  {
    if |log| == |more| {
      assert log == more;
    } else {
      assert log <= more[..|more| - 1];
      SsrcLogGrows(log, more[..|more| - 1], ssrc);
    }
  }

  lemma {:induction false} FlushReadyLog(c: Config, s: AssemblerState, ssrc: U32, now: int)
    ensures s.log <= FlushReady(c, s, ssrc, now).log
    decreases |s.groups|
  {
    hide Complete, OrderedKeys, SortedPackets, LastMarkerOf, GapFree;
    var keys := OrderedKeys(s, ssrc);
    if keys != [] && keys[0] in s.groups && Complete(s, keys[0]) {
      FlushShrinks(s, keys[0], now);
      FlushReadyLog(c, Flush(s, keys[0], now), ssrc, now);
    }
  }

  /** The first flush takes what has arrived of the first unit, whatever is missing before it. */
  lemma FirstIsSuffix(c: Config, st: Stream, s: AssemblerState, before: seq<Output>, u: nat, arrived: set<nat>,
                      now: int)
    returns (a: nat)
    requires Entered(st, s, before, u, arrived, now) && now > 0 && WellFormed(st) && Suffix(st, u, arrived)
    ensures SuffixFrom(st, u, arrived, a)
    ensures UnitKey(st, u) in s.groups
    ensures StartsWith(st, FlushReady(c, Flush(s, UnitKey(st, u), now), st.ssrc, now), before, u, a)
  {
    hide SuffixFrom, Tracked, Valid, Leading, IsWhole, SortedPackets, LastMarkerOf, GapFree, FlushReady, SsrcLog,
      Complete;
    EnteredTracks(st, s, before, u, arrived, now);
    a :| SuffixFrom(st, u, arrived, a);
    SuffixInUnit(st, u, arrived, a);
    SuffixIsComplete(st, s, u, arrived, a);
    CutForm(st, u, a);
    var k := UnitKey(st, u);
    var o, r := FlushOutput(s, k), FlushReady(c, Flush(s, k, now), st.ssrc, now);
    FlushComplete(s, k);
    SsrcLogAppend(s.log, o, st.ssrc);
    FlushReadyLog(c, Flush(s, k, now), st.ssrc, now);
    SsrcLogGrows(s.log + [o], r.log, st.ssrc);
    assert SsrcLog(s.log, st.ssrc) == before;
  }

  lemma SuffixInUnit(st: Stream, i: nat, arrived: set<nat>, a: nat)
    requires i + 1 < |st.starts| && SuffixFrom(st, i, arrived, a)
    ensures InUnit(st, i, a)
  {
  }

  /** If that is all of unit 0, the stream is followed from then on. */
  lemma FirstIsWhole(c: Config, st: Stream, s: AssemblerState, before: seq<Output>, arrived: set<nat>, now: int)
    returns (m: nat)
    requires Entered(st, s, before, 0, arrived, now) && now > 0 && WellFormed(st) && Full(st, 0, arrived)
    ensures UnitKey(st, 0) in s.groups
    ensures Synced(st, FlushReady(c, Flush(s, UnitKey(st, 0), now), st.ssrc, now), before, m, arrived)
    ensures Waiting(st, m, arrived)
  {
    hide Tracks, Valid, LogIs, Leading, SortedPackets, Complete, FlushReady;
    var s', k := Anchored(st, s), UnitKey(st, 0);
    FullIsComplete(st, s', 0, arrived);
    FlushSynced(st, s', before, 0, arrived, k, now);
    FlushForgetsAnchor(st, s, k, now);
    m := FlushReadySynced(c, st, Flush(s, k, now), before, 1, arrived, now);
  }

  lemma FlushForgetsAnchor(st: Stream, s: AssemblerState, k: Key, now: int)
    requires Valid(Anchored(st, s)) && k in s.groups && k.ssrc == st.ssrc && Complete(Anchored(st, s), k)
    ensures Flush(Anchored(st, s), k, now) == Flush(s, k, now)
  {
    hide SortedPackets, GapFree, Valid;
    FlushIsWell(Anchored(st, s), k);
  }

  // ---- runs ----

  /** The unit of the first packet of the stream to arrive. */
  ghost function FirstUnit(st: Stream, es: seq<Event>, ids: seq<(nat, nat)>, t: nat): Option<nat>
    requires t <= |es| == |ids|
  {
    if t == 0 then None
    else NextFirst(st, FirstUnit(st, es, ids, t - 1), es[t - 1], ids[t - 1])
  }

  ghost function NextFirst(st: Stream, first: Option<nat>, e: Event, id: (nat, nat)): Option<nat> {
    if first.None? && e.Queue? && e.key.ssrc == st.ssrc then Some(id.0) else first
  }

  /** What has arrived of the first unit is no suffix of it. */
  ghost predicate Unready(st: Stream, first: Option<nat>, arrived: set<nat>) {
    first.Some? && first.value + 1 < |st.starts| ==> !Suffix(st, first.value, arrived)
  }

  lemma NextUnopened(c: Config, st: Stream, w: System, before: seq<Output>, first: Option<nat>, arrived: set<nat>,
                     clock: int, e: Event, id: (nat, nat))
    returns (s1: AssemblerState)
    requires c.codec == Avc && WellFormed(st) && Unopened(st, w.a, before, first, arrived, clock)
    requires clock <= e.now && 0 < e.now && Unready(st, first, arrived) && Orderly(c, st, w.a, 0, e, id)
    ensures var first', arrived', r := NextFirst(st, first, e, id), arrived + Arrives(st, e, id), Next(c, w, e).a;
      if Unready(st, first', arrived') then Unopened(st, r, before, first', arrived', e.now)
      else
        && first'.Some? && Entered(st, s1, before, first'.value, arrived', e.now)
        && UnitKey(st, first'.value) in s1.groups
        && r == FlushReady(c, Flush(s1, UnitKey(st, first'.value), e.now), st.ssrc, e.now)
  {
    hide QueuePacket, EvictStale, Entered, Synced, Suffix, FlushReady, Flush, UnitSized, Distinct;
    if first.Some? {
      EnteredTracks(st, w.a, before, first.value, arrived, clock);
    }
    s1 := w.a;
    match e
    case Queue(k, p, now) =>
      if k.ssrc == st.ssrc {
        s1 := QueueUnopened(c, st, w.a, before, first, arrived, clock, id.0, id.1, p.slot, now);
        EnteredTracks(st, s1, before, UnitOfFirst(first, id.0), arrived + {id.1}, now);
      } else {
        assert arrived + {} == arrived;
        var us := QueuePacketRuns(c, w.a, k, p, now);
        var ts := [Admit(w.a, k, p, now)] + us;
        ElsewhereUnopened(c, st, w.a, before, first, arrived, clock, ts, Next(c, w, e).a, now);
      }
    case Evict(now) =>
      assert arrived + {} == arrived;
      var ts := EvictStaleRuns(c, w.a, st.ssrc, now);
      ElsewhereUnopened(c, st, w.a, before, first, arrived, clock, ts, Next(c, w, e).a, now);
    case Release(slot, now) =>
      assert arrived + {} == arrived;
      var ts := [SGiveBack(slot)];
      assert ts[1..] == [];
      ElsewhereUnopened(c, st, w.a, before, first, arrived, clock, ts, Next(c, w, e).a, now);
    case Acquire(_) =>
      assert arrived + {} == arrived;
      AcquireUnopened(c, st, w, before, first, arrived, clock, e);
  }

  lemma AcquireUnopened(c: Config, st: Stream, w: System, before: seq<Output>, first: Option<nat>, arrived: set<nat>,
                        clock: int, e: Event)
    requires Unopened(st, w.a, before, first, arrived, clock) && clock <= e.now && e.Acquire?
    ensures Unopened(st, Next(c, w, e).a, before, first, arrived, e.now)
  {
    hide Synced, Leads;
    AcquireSynced(c, st, System(Anchored(st, w.a), w.held), before, 0, arrived, e);
  }

  /** An AVC assembler that has no anchor for the SSRC and holds nothing of the stream to come. */
  ghost predicate Unheard(c: Config, st: Stream, s: AssemblerState) {
    && c.codec == Avc && Valid(s) && WellFormed(st) && Anchor(s, st.ssrc).None?
    && (forall k :: k in s.groups ==> k.ssrc != st.ssrc)
    && (forall i :: 0 <= i < |st.stamps| ==> UnitKey(st, i) !in s.recent)
  }

  ghost predicate UnheardRun(c: Config, st: Stream, ws: seq<System>, es: seq<Event>, ids: seq<(nat, nat)>) {
    Trace(c, ws, es) && |ids| == |es| && Unheard(c, st, ws[0].a) && OrderlyRun(c, st, ws, es, ids)
  }

  lemma RunForm(c: Config, st: Stream, ws: seq<System>, es: seq<Event>, ids: seq<(nat, nat)>)
    requires UnheardRun(c, st, ws, es, ids)
    ensures WellFormed(st) && |ws| == |es| + 1 && |ids| == |es|
    ensures forall i :: 0 <= i < |es| ==> es[i].now > 0
  {
  }

  /** The log of the SSRC at the start. */
  ghost function LogBefore(st: Stream, ws: seq<System>): seq<Output>
    requires ws != []
  {
    SsrcLog(ws[0].a.log, st.ssrc)
  }

  ghost function Clock(es: seq<Event>, t: nat): int
    requires t <= |es|
  {
    if t == 0 then 0 else es[t - 1].now
  }

  ghost predicate UnreadyAt(st: Stream, es: seq<Event>, ids: seq<(nat, nat)>, t: nat)
    requires t <= |es| == |ids|
  {
    Unready(st, FirstUnit(st, es, ids, t), Arrived(st, es, ids, t))
  }

  ghost predicate UnopenedAt(st: Stream, ws: seq<System>, es: seq<Event>, ids: seq<(nat, nat)>, t: nat)
    requires t <= |es| == |ids| && t < |ws|
  {
    Unopened(st, ws[t].a, LogBefore(st, ws), FirstUnit(st, es, ids, t), Arrived(st, es, ids, t), Clock(es, t))
  }

  lemma UnheardReady(c: Config, st: Stream, s: AssemblerState)
    requires Unheard(c, st, s)
    ensures Ready(c, st, Anchored(st, s))
  {
  }

  lemma UnheardUnopened(c: Config, st: Stream, ws: seq<System>, es: seq<Event>, ids: seq<(nat, nat)>)
    requires UnheardRun(c, st, ws, es, ids)
    ensures UnopenedAt(st, ws, es, ids, 0) && UnreadyAt(st, es, ids, 0)
  {
    hide Ready, Synced, Valid, Clocked, OrderlyRun, Waiting;
    UnheardReady(c, st, ws[0].a);
    ReadySynced(c, st, Anchored(st, ws[0].a));
  }

  lemma UnopenedStep(c: Config, st: Stream, ws: seq<System>, es: seq<Event>, ids: seq<(nat, nat)>, t: nat)
    returns (s1: AssemblerState)
    requires UnheardRun(c, st, ws, es, ids) && t < |es|
    requires UnopenedAt(st, ws, es, ids, t) && UnreadyAt(st, es, ids, t)
    ensures var first, arrived := FirstUnit(st, es, ids, t + 1), Arrived(st, es, ids, t + 1);
      if UnreadyAt(st, es, ids, t + 1) then UnopenedAt(st, ws, es, ids, t + 1)
      else
        && first.Some? && Entered(st, s1, LogBefore(st, ws), first.value, arrived, es[t].now)
        && UnitKey(st, first.value) in s1.groups
        && ws[t + 1].a == FlushReady(c, Flush(s1, UnitKey(st, first.value), es[t].now), st.ssrc, es[t].now)
  {
    hide Next, Entered, Unready, Orderly, FlushReady, Flush, Valid, UnitSized;
    var first, arrived, clock := FirstUnit(st, es, ids, t), Arrived(st, es, ids, t), Clock(es, t);
    UnopenedCount(st, ws[t].a, LogBefore(st, ws), first, arrived, clock);
    OrderlyAt(c, st, ws, es, ids, t, 0);
    assert ws[t + 1] == Next(c, ws[t], es[t]);
    assert clock <= es[t].now;
    s1 := NextUnopened(c, st, ws[t], LogBefore(st, ws), first, arrived, clock, es[t], ids[t]);
  }

  lemma UnopenedCount(st: Stream, s: AssemblerState, before: seq<Output>, first: Option<nat>, arrived: set<nat>,
                      clock: int)
    requires Unopened(st, s, before, first, arrived, clock)
    ensures FlushCount(st, s, before) == 0 && SsrcLog(s.log, st.ssrc) == before
  {
    hide Tracks, Valid, Leading;
  }

  lemma {:induction false} UnopenedUpTo(c: Config, st: Stream, ws: seq<System>, es: seq<Event>, ids: seq<(nat, nat)>,
                                        t: nat)
    requires UnheardRun(c, st, ws, es, ids) && t <= |es|
    requires forall q :: 0 <= q <= t ==> UnreadyAt(st, es, ids, q)
    ensures UnopenedAt(st, ws, es, ids, t)
  {
    hide UnheardRun, UnopenedAt, UnreadyAt;
    if t == 0 {
      UnheardUnopened(c, st, ws, es, ids);
    } else {
      UnopenedUpTo(c, st, ws, es, ids, t - 1);
      var s1 := UnopenedStep(c, st, ws, es, ids, t - 1);
    }
  }

  /**
   Nothing of a new SSRC is flushed until what has arrived of the first unit is a suffix of it. Then exactly
   that suffix is flushed, as complete.
   */
  lemma FirstFlush(c: Config, st: Stream, ws: seq<System>, es: seq<Event>, ids: seq<(nat, nat)>, t: nat)
    returns (u: nat, a: nat)
    requires UnheardRun(c, st, ws, es, ids) && t < |es|
    requires forall q :: 0 <= q <= t ==> UnreadyAt(st, es, ids, q)
    requires !UnreadyAt(st, es, ids, t + 1)
    ensures SsrcLog(ws[t].a.log, st.ssrc) == LogBefore(st, ws)
    ensures FirstUnit(st, es, ids, t + 1) == Some(u) && u < |st.stamps| && u + 1 < |st.starts|
    ensures SuffixFrom(st, u, Arrived(st, es, ids, t + 1), a) && StartsWith(st, ws[t + 1].a, LogBefore(st, ws), u, a)
  {
    hide Entered, SuffixFrom, StartsWith, FlushReady, Flush;
    UnopenedUpTo(c, st, ws, es, ids, t);
    UnopenedCount(st, ws[t].a, LogBefore(st, ws), FirstUnit(st, es, ids, t), Arrived(st, es, ids, t), Clock(es, t));
    var s1 := UnopenedStep(c, st, ws, es, ids, t);
    u := FirstUnit(st, es, ids, t + 1).value;
    var before, arrived := LogBefore(st, ws), Arrived(st, es, ids, t + 1);
    EnteredTracks(st, s1, before, u, arrived, es[t].now);
    a := FirstIsSuffix(c, st, s1, before, u, arrived, es[t].now);
    SuffixInUnit(st, u, arrived, a);
  }

  // ---- when a new SSRC is followed from its first unit on ----

  /** The units flushed since `before` are the leading units that have fully arrived, and no others. */
  ghost predicate TransparentAt(st: Stream, s: AssemblerState, before: seq<Output>, arrived: set<nat>)
    requires WellFormed(st)
  {
    exists m :: 0 <= m <= |st.stamps| && LogIs(st, s, before, m)
      && (forall j :: 0 <= j < st.starts[m] ==> j in arrived) && (m < |st.stamps| ==> !Full(st, m, arrived))
  }

  ghost predicate FirstFull(st: Stream, arrived: set<nat>) {
    0 < |st.stamps| && 1 < |st.starts| && Full(st, 0, arrived)
  }

  /** Once the first unit can be flushed, or unit 0 is there, the first unit is unit 0 and all of it is there. */
  ghost predicate OpensAt(st: Stream, es: seq<Event>, ids: seq<(nat, nat)>, t: nat)
    requires t <= |es| == |ids|
  {
    !UnreadyAt(st, es, ids, t) || FirstFull(st, Arrived(st, es, ids, t)) ==>
      FirstUnit(st, es, ids, t) == Some(0) && FirstFull(st, Arrived(st, es, ids, t))
  }

  lemma FullIsReady(st: Stream, arrived: set<nat>)
    requires WellFormed(st) && FirstFull(st, arrived)
    ensures !Unready(st, Some(0), arrived)
  {
    assert UnitSized(st, 0);
    assert SuffixFrom(st, 0, arrived, 0);
  }

  /** Once open, it stays so. */
  lemma StaysReady(st: Stream, es: seq<Event>, ids: seq<(nat, nat)>, t: nat)
    requires WellFormed(st) && t < |es| == |ids| && !UnreadyAt(st, es, ids, t) && OpensAt(st, es, ids, t)
    ensures !UnreadyAt(st, es, ids, t + 1) && OpensAt(st, es, ids, t + 1)
  {
    hide Unready, UnitSized;
    FullIsReady(st, Arrived(st, es, ids, t + 1));
  }

  lemma OpenedStep(c: Config, st: Stream, ws: seq<System>, es: seq<Event>, ids: seq<(nat, nat)>, t: nat, m: nat)
    returns (m': nat)
    requires UnheardRun(c, st, ws, es, ids) && t < |es|
    requires Synced(st, ws[t].a, LogBefore(st, ws), m, Arrived(st, es, ids, t))
    requires Waiting(st, m, Arrived(st, es, ids, t))
    ensures Synced(st, ws[t + 1].a, LogBefore(st, ws), m', Arrived(st, es, ids, t + 1))
    ensures Waiting(st, m', Arrived(st, es, ids, t + 1))
  {
    hide Next, Tracks, Valid, Waiting, Orderly, UnitsInOrder, SsrcLog, UnitSized;
    OrderlyAt(c, st, ws, es, ids, t, m);
    assert ws[t + 1] == Next(c, ws[t], es[t]);
    m' := NextSynced(c, st, ws[t], LogBefore(st, ws), m, Arrived(st, es, ids, t), es[t], ids[t]);
  }

  lemma {:induction false} OpenedUpTo(c: Config, st: Stream, ws: seq<System>, es: seq<Event>, ids: seq<(nat, nat)>,
                                      t: nat)
    returns (m: nat)
    requires UnheardRun(c, st, ws, es, ids) && t <= |es|
    requires forall q :: 0 <= q <= t ==> OpensAt(st, es, ids, q)
    ensures UnreadyAt(st, es, ids, t) ==> UnopenedAt(st, ws, es, ids, t)
    ensures !UnreadyAt(st, es, ids, t) ==>
      Synced(st, ws[t].a, LogBefore(st, ws), m, Arrived(st, es, ids, t)) && Waiting(st, m, Arrived(st, es, ids, t))
  {
    hide UnopenedAt, Unready, Synced, Waiting, FlushReady, Flush, Entered, Full, UnheardRun, UnitSized;
    RunForm(c, st, ws, es, ids);
    assert OpensAt(st, es, ids, t);
    m := 0;
    if t == 0 {
      UnheardUnopened(c, st, ws, es, ids);
    } else {
      var m0 := OpenedUpTo(c, st, ws, es, ids, t - 1);
      if UnreadyAt(st, es, ids, t - 1) {
        var s1 := UnopenedStep(c, st, ws, es, ids, t - 1);
        if !UnreadyAt(st, es, ids, t) {
          m := FirstIsWhole(c, st, s1, LogBefore(st, ws), Arrived(st, es, ids, t), es[t - 1].now);
        }
      } else {
        m := OpenedStep(c, st, ws, es, ids, t - 1, m0);
        StaysReady(st, es, ids, t - 1);
      }
    }
  }

  /** While nothing is flushed, that is right as long as unit 0 has not fully arrived. */
  lemma NothingFlushed(st: Stream, ws: seq<System>, es: seq<Event>, ids: seq<(nat, nat)>, t: nat)
    requires |ids| == |es| && t <= |es| && t < |ws| && WellFormed(st) && UnopenedAt(st, ws, es, ids, t)
    ensures TransparentAt(st, ws[t].a, LogBefore(st, ws), Arrived(st, es, ids, t))
        <==> !FirstFull(st, Arrived(st, es, ids, t))
  {
    hide Unopened, SsrcLog, Full, UnitSized, UnitsInOrder;
    var before, arrived := LogBefore(st, ws), Arrived(st, es, ids, t);
    UnopenedCount(st, ws[t].a, before, FirstUnit(st, es, ids, t), arrived, Clock(es, t));
    assert before <= before && before[|before|..] == [];
    EmptyLog(st, ws[t].a, before);
  }

  lemma EmptyLog(st: Stream, s: AssemblerState, before: seq<Output>)
    requires WellFormed(st) && SsrcLog(s.log, st.ssrc) == before
    ensures LogIs(st, s, before, 0)
  {
    assert before[|before|..] == [];
  }

  lemma SyncedTransparent(st: Stream, s: AssemblerState, before: seq<Output>, m: nat, arrived: set<nat>)
    requires Synced(st, s, before, m, arrived) && Waiting(st, m, arrived)
    ensures WellFormed(st) && TransparentAt(st, s, before, arrived)
  {
    hide LogIs, Full, Valid, Tracked, IsUnit;
  }

  /** A first flush that is not all of unit 0 is not what the stream asks for. */
  lemma WrongStart(st: Stream, s: AssemblerState, before: seq<Output>, u: nat, a: nat, arrived: set<nat>)
    requires WellFormed(st) && u < |st.stamps| && SuffixFrom(st, u, arrived, a) && StartsWith(st, s, before, u, a)
    requires TransparentAt(st, s, before, arrived)
    ensures u == 0 && FirstFull(st, arrived)
  {
    hide SsrcLog, UnitSized, Distinct, Num, Full;
    var l := SsrcLog(s.log, st.ssrc);
    var m :| 0 <= m <= |st.stamps| && LogIs(st, s, before, m);
    assert l[|before|..][0] == l[|before|];
    assert Delivered(st, 0, l[|before|]);
    UnitKeys(st, 0, u);
    CutForm(st, u, a);
    SuffixWhole(st, arrived, a);
  }

  lemma SuffixWhole(st: Stream, arrived: set<nat>, a: nat)
    requires WellFormed(st) && 0 < |st.stamps| && SuffixFrom(st, 0, arrived, a)
    ensures a == 0 ==> Full(st, 0, arrived)
  {
  }

  lemma FirstViolation(c: Config, st: Stream, ws: seq<System>, es: seq<Event>, ids: seq<(nat, nat)>, t: nat)
    requires UnheardRun(c, st, ws, es, ids) && t < |es|
    requires forall q :: 0 <= q <= t ==> OpensAt(st, es, ids, q)
    requires !OpensAt(st, es, ids, t + 1)
    ensures !TransparentAt(st, ws[t + 1].a, LogBefore(st, ws), Arrived(st, es, ids, t + 1))
  {
    hide Unready, Synced, Waiting, FlushReady, Flush, Entered, UnheardRun, UnitSized, TransparentAt, FirstFull,
      SuffixFrom, StartsWith, UnopenedAt;
    RunForm(c, st, ws, es, ids);
    var m := OpenedUpTo(c, st, ws, es, ids, t);
    if !UnreadyAt(st, es, ids, t) {
      StaysReady(st, es, ids, t);
    } else {
      var before, arrived := LogBefore(st, ws), Arrived(st, es, ids, t + 1);
      var s1 := UnopenedStep(c, st, ws, es, ids, t);
      if UnreadyAt(st, es, ids, t + 1) {
        NothingFlushed(st, ws, es, ids, t + 1);
      } else if TransparentAt(st, ws[t + 1].a, before, arrived) {
        var u := FirstUnit(st, es, ids, t + 1).value;
        EnteredTracks(st, s1, before, u, arrived, es[t].now);
        ReadyIsSuffix(st, u, arrived);
        var a := FirstIsSuffix(c, st, s1, before, u, arrived, es[t].now);
        SuffixInUnit(st, u, arrived, a);
        WrongStart(st, ws[t + 1].a, before, u, a, arrived);
      }
    }
  }

  lemma ReadyIsSuffix(st: Stream, u: nat, arrived: set<nat>)
    requires u + 1 < |st.starts| && !Unready(st, Some(u), arrived)
    ensures Suffix(st, u, arrived)
  {
  }

  lemma OpenIsTransparent(c: Config, st: Stream, ws: seq<System>, es: seq<Event>, ids: seq<(nat, nat)>, t: nat)
    requires UnheardRun(c, st, ws, es, ids) && t <= |es|
    requires forall q :: 0 <= q <= t ==> OpensAt(st, es, ids, q)
    ensures TransparentAt(st, ws[t].a, LogBefore(st, ws), Arrived(st, es, ids, t))
  {
    hide Unready, Synced, Waiting, UnheardRun, UnitSized, TransparentAt, UnopenedAt, FirstFull;
    RunForm(c, st, ws, es, ids);
    var m := OpenedUpTo(c, st, ws, es, ids, t);
    assert OpensAt(st, es, ids, t);
    if UnreadyAt(st, es, ids, t) {
      NothingFlushed(st, ws, es, ids, t);
      if FirstFull(st, Arrived(st, es, ids, t)) {
        FullIsReady(st, Arrived(st, es, ids, t));
      }
    } else {
      SyncedTransparent(st, ws[t].a, LogBefore(st, ws), m, Arrived(st, es, ids, t));
    }
  }

  /**
   A new SSRC is followed from unit 0 on, whatever is reordered, if and only if at every moment at which what
   has arrived of the first unit is a suffix of it, or unit 0 is complete, the first unit is unit 0 and complete.
   */
  lemma FreshTransparentIff(c: Config, st: Stream, ws: seq<System>, es: seq<Event>, ids: seq<(nat, nat)>, t: nat)
    requires UnheardRun(c, st, ws, es, ids) && t <= |es|
    ensures (forall q :: 0 <= q <= t ==> TransparentAt(st, ws[q].a, LogBefore(st, ws), Arrived(st, es, ids, q)))
       <==> (forall q :: 0 <= q <= t ==> OpensAt(st, es, ids, q))
  {
    hide UnheardRun, OpensAt, TransparentAt;
    RunForm(c, st, ws, es, ids);
    if forall q :: 0 <= q <= t ==> OpensAt(st, es, ids, q) {
      forall q | 0 <= q <= t
        ensures TransparentAt(st, ws[q].a, LogBefore(st, ws), Arrived(st, es, ids, q))
      {
        OpenIsTransparent(c, st, ws, es, ids, q);
      }
    } else {
      var q := LeastShut(st, es, ids, t);
      FirstViolation(c, st, ws, es, ids, q);
    }
  }

  lemma {:induction false} LeastShut(st: Stream, es: seq<Event>, ids: seq<(nat, nat)>, t: nat) returns (q: nat)
    requires WellFormed(st) && t <= |es| == |ids| && exists r :: 0 <= r <= t && !OpensAt(st, es, ids, r)
    ensures q < t && !OpensAt(st, es, ids, q + 1) && forall r :: 0 <= r <= q ==> OpensAt(st, es, ids, r)
  {
    hide OpensAt, UnitSized, Distinct;
    NothingAtFirst(st, es, ids);
    if forall r :: 0 <= r < t ==> OpensAt(st, es, ids, r) {
      q := t - 1;
    } else {
      q := LeastShut(st, es, ids, t - 1);
    }
  }

  lemma NothingAtFirst(st: Stream, es: seq<Event>, ids: seq<(nat, nat)>)
    requires WellFormed(st) && |es| == |ids|
    ensures OpensAt(st, es, ids, 0)
  {
    if 0 < |st.stamps| {
      assert UnitSized(st, 0);
      assert st.starts[0] !in Arrived(st, es, ids, 0);
    }
  }

  /** So it is whenever packet 0 arrives first, in whatever order the others follow. */
  lemma {:induction false} PacketZeroOpens(c: Config, st: Stream, ws: seq<System>, es: seq<Event>,
                                           ids: seq<(nat, nat)>, f: nat, t: nat)
    requires UnheardRun(c, st, ws, es, ids) && f < |es| && t <= |es|
    requires forall i :: 0 <= i < f ==> Arrives(st, es[i], ids[i]) == {}
    requires es[f].Queue? && es[f].key.ssrc == st.ssrc && ids[f] == (0, 0)
    ensures TransparentAt(st, ws[t].a, LogBefore(st, ws), Arrived(st, es, ids, t))
  {
    hide UnheardRun, TransparentAt, OpensAt, Trace, OrderlyRun, Arrives;
    RunForm(c, st, ws, es, ids);
    forall q | 0 <= q <= t ensures OpensAt(st, es, ids, q) {
      ZeroFirst(st, es, ids, f, q);
      ZeroOpens(st, es, ids, q);
    }
    OpenIsTransparent(c, st, ws, es, ids, t);
  }

  lemma {:induction false} ZeroFirst(st: Stream, es: seq<Event>, ids: seq<(nat, nat)>, f: nat, q: nat)
    requires f < |es| == |ids| && q <= |es|
    requires forall i :: 0 <= i < f ==> Arrives(st, es[i], ids[i]) == {}
    requires es[f].Queue? && es[f].key.ssrc == st.ssrc && ids[f] == (0, 0)
    ensures q <= f ==> FirstUnit(st, es, ids, q) == None && Arrived(st, es, ids, q) == {}
    ensures q > f ==> FirstUnit(st, es, ids, q) == Some(0) && 0 in Arrived(st, es, ids, q)
  {
    if q > 0 {
      ZeroFirst(st, es, ids, f, q - 1);
      assert q <= f ==> Arrives(st, es[q - 1], ids[q - 1]) == {};
    }
  }

  lemma ZeroOpens(st: Stream, es: seq<Event>, ids: seq<(nat, nat)>, q: nat)
    requires WellFormed(st) && q <= |es| == |ids|
    requires var first, arrived := FirstUnit(st, es, ids, q), Arrived(st, es, ids, q);
             (first == None && arrived == {}) || (first == Some(0) && 0 in arrived)
    ensures OpensAt(st, es, ids, q)
  {
    var arrived := Arrived(st, es, ids, q);
    if 0 < |st.stamps| {
      assert UnitSized(st, 0);
      if a :| SuffixFrom(st, 0, arrived, a) {
        assert 0 in arrived <==> a <= 0;
      }
      assert Full(st, 0, arrived) ==> st.starts[0] in arrived;
    }
  }

  /** One event: only the marker packet of unit `u` arrives, and it is flushed at once as a complete unit. */
  lemma LoneMarkerFlushed(c: Config, st: Stream, u: nat, slot: nat, now: int)
    returns (j: nat, ws: seq<System>, es: seq<Event>, ids: seq<(nat, nat)>)
    requires c.codec == Avc && WellFormed(st) && u < |st.stamps| && st.starts[u + 1] <= 0x1_0000 && now > 0
    ensures j + 1 == st.starts[u + 1] && |es| == 1 && UnheardRun(c, st, ws, es, ids) && ids == [(u, j)]
    ensures StartsWith(st, ws[1].a, LogBefore(st, ws), u, j)
  {
    hide Next, StartsWith, Suffix;
    assert UnitSized(st, u);
    j := st.starts[u + 1] - 1;
    var w := System(AssemblerState(map[], [], [], map[], map[], [], []), multiset{slot});
    var e := Queue(UnitKey(st, u), Packet(st, u, j, slot), now);
    es, ids, ws := [e], [(u, j)], [w, Next(c, w, e)];
    assert Arrived(st, es, ids, 0) == {} && Arrived(st, es, ids, 1) == {j};
    assert FirstUnit(st, es, ids, 0) == None && FirstUnit(st, es, ids, 1) == Some(u);
    LastIsSuffix(st, u);
    var u', a := FirstFlush(c, st, ws, es, ids, 0);
    assert a in Arrived(st, es, ids, 1);
  }

  lemma LastIsSuffix(st: Stream, u: nat)
    requires WellFormed(st) && u < |st.stamps|
    ensures st.starts[u + 1] > 0 && Suffix(st, u, {st.starts[u + 1] - 1})
  {
    assert UnitSized(st, u);
    assert SuffixFrom(st, u, {st.starts[u + 1] - 1}, st.starts[u + 1] - 1);
  }
}
