/**
 What an arrival does to an HEVC assembler, over every run: the packets of an access unit are collected until
 one of them carries the marker, and then they are handed on at once, in circular order, with or without gaps.
 */
module AssemblerHevc {
  import opened Wire
  import opened CircularSort
  import opened AssemblerModel
  import opened AssemblerSteps
  import opened AssemblerInvariants
  import opened AssemblerRuns

  // ---- the packets of a pending group are those that arrived for it ----

  predicate HasNum(p: seq<GroupPacket>, num: U16) {
    exists i :: 0 <= i < |p| && p[i].num == num
  }

  /** The packets that events `m` to `j - 1` bring for the key, the first copy of each number. */
  ghost function Arrivals(es: seq<Event>, k: Key, m: nat, j: nat): seq<GroupPacket>
    requires m <= j <= |es|
  {
    if j == m then []
    else
      var before, e := Arrivals(es, k, m, j - 1), es[j - 1];
      if e.Queue? && e.key == k && !HasNum(before, e.p.num) then before + [e.p] else before
  }

  lemma StepPackets(c: Config, s: AssemblerState, t: Step, k: Key)
    requires Legal(c, s, t) && k in Apply(c, s, t).groups && (t.SAdd? ==> t.key != k)
    ensures k in s.groups && Apply(c, s, t).groups[k].pkts == s.groups[k].pkts
    ensures Apply(c, s, t).groups[k].hasMarker == s.groups[k].hasMarker
  {
    hide Complete, SortedPackets, LastMarkerOf;
  }

  lemma {:induction false} RunsPackets(c: Config, s: AssemblerState, ts: seq<Step>, r: AssemblerState, k: Key)
    requires Runs(c, s, ts, r) && NoIntake(ts) && k in r.groups
    ensures k in s.groups && r.groups[k].pkts == s.groups[k].pkts && r.groups[k].hasMarker == s.groups[k].hasMarker
    decreases ts
  {
    hide Apply, Legal;
    if ts != [] {
      RunsPackets(c, Apply(c, s, ts[0]), ts[1..], r, k);
      StepPackets(c, s, ts[0], k);
    }
  }

  /** An event that does not queue a packet of `k` leaves a group that stays pending as it was. */
  lemma NextPackets(c: Config, w: System, e: Event, k: Key)
    requires k in Next(c, w, e).a.groups && !(e.Queue? && e.key == k)
    ensures k in w.a.groups && Next(c, w, e).a.groups[k].pkts == w.a.groups[k].pkts
    ensures Next(c, w, e).a.groups[k].hasMarker == w.a.groups[k].hasMarker
  {
    hide QueuePacket, EvictStale;
    match e
    case Queue(k', p, now) =>
      var us := QueuePacketRuns(c, w.a, k', p, now);
      var first := Admit(w.a, k', p, now);
      assert ([first] + us)[1..] == us;
      RunsPackets(c, Apply(c, w.a, first), us, Next(c, w, e).a, k);
      StepPackets(c, w.a, first, k);
    case Evict(now) =>
      var ts := EvictStaleRuns(c, w.a, 0, now);
      RunsPackets(c, w.a, ts, Next(c, w, e).a, k);
    case _ =>
  }

  /** The packets of `k` after the first step of an arrival for it. */
  lemma AdmitPackets(c: Config, s: AssemblerState, k: Key, p: GroupPacket, now: int)
    requires Valid(s) && k !in s.recent
    ensures var r := Apply(c, s, Admit(s, k, p, now));
      var had := if k in s.groups then s.groups[k].pkts else [];
      && k in r.groups && r.groups[k].pkts == if HasNum(had, p.num) then had else had + [p]
  {
    var had := if k in s.groups then s.groups[k].pkts else [];
    assert Holds(s, k, p.num) <==> HasNum(had, p.num);
    assert [] + [p] == [p];
  }

  lemma NextArrival(c: Config, w: System, e: Event, k: Key)
    requires Valid(w.a) && e.Queue? && e.key == k && k in Next(c, w, e).a.groups
    ensures var had := if k in w.a.groups then w.a.groups[k].pkts else [];
      && k !in w.a.recent
      && Next(c, w, e).a.groups[k].pkts == if HasNum(had, e.p.num) then had else had + [e.p]
  {
    hide QueuePacket, HasNum, Valid;
    NotRemembered(c, w.a, k, e.p, e.now);
    var us := QueuePacketRuns(c, w.a, k, e.p, e.now);
    var first := Admit(w.a, k, e.p, e.now);
    assert ([first] + us)[1..] == us;
    AdmitPackets(c, w.a, k, e.p, e.now);
    RunsPackets(c, Apply(c, w.a, first), us, Next(c, w, e).a, k);
  }

  /** Not pending at `m` and pending ever since, up to `j`. */
  ghost predicate PendingSince(ws: seq<System>, k: Key, m: nat, j: nat)
    requires m <= j < |ws|
  {
    k !in ws[m].a.groups && forall q :: m < q <= j ==> k in ws[q].a.groups
  }

  /** In every run of either codec a pending group holds exactly the packets that arrived since it began. */
  lemma {:induction false} PendingIsArrived(c: Config, n: nat, ws: seq<System>, es: seq<Event>, k: Key, m: nat, j: nat)
    requires Trace(c, ws, es) && ws[0] == Start(n) && m < j < |ws| && PendingSince(ws, k, m, j)
    ensures ws[j].a.groups[k].pkts == Arrivals(es, k, m, j)
  {
    hide Next, Valid;
    var w, e := ws[j - 1], es[j - 1];
    assert ws[j] == Next(c, w, e);
    SlotConservation(c, n, ws, es, j - 1);
    if m < j - 1 {
      PendingIsArrived(c, n, ws, es, k, m, j - 1);
    }
    if e.Queue? && e.key == k {
      NextArrival(c, w, e, k);
    } else {
      NextPackets(c, w, e, k);
    }
  }

  // ---- what is flushed ----

  /** Two neighbours are more than one apart. */
  ghost predicate HasHole(p: seq<GroupPacket>) {
    exists i :: 0 <= i < |p| - 1 && Sub16(p[i + 1].num, p[i].num) > 1
  }

  /**
   Output `o` hands on exactly the packets `p` of unit `k`, from any point of the circle that they lie within
   half a circle of in order of distance, and says truly whether there are holes.
   */
  ghost predicate HandsOn(o: Output, k: Key, p: seq<GroupPacket>) {
    && o.Flushed? && o.key == k && multiset(o.packets) == multiset(p)
    && (forall base: U16 :: InWindow(p, base) ==> OrderedFrom(o.packets, base))
    && (o.incomplete <==> HasHole(o.packets))
  }

  lemma FlushHandsOn(s: AssemblerState, k: Key, now: int)
    requires Valid(s) && k in s.groups
    ensures var r := Flush(s, k, now);
      && |r.log| == |s.log| + 1 && s.log <= r.log && HandsOn(r.log[|s.log|], k, s.groups[k].pkts)
      && k !in r.groups && k in r.recent && r.recent[k] == now
  {
    hide SortedPackets, LastMarkerOf;
    var p := s.groups[k].pkts;
    assert ValidGroup(s.groups[k]);
    forall base: U16 | InWindow(p, base) ensures OrderedFrom(SortedPackets(p), base) {
      CircularOrder(p, base);
    }
  }

  /** No pending group has its marker: it would have been flushed. */
  ghost predicate AllUnmarked(s: AssemblerState) {
    forall k :: k in s.groups ==> !s.groups[k].hasMarker
  }

  lemma NextUnmarked(c: Config, w: System, e: Event)
    requires c.codec == Hevc && Valid(w.a) && AllUnmarked(w.a)
    ensures AllUnmarked(Next(c, w, e).a)
  {
    hide Next, Valid;
    var r := Next(c, w, e).a;
    forall k | k in r.groups ensures !r.groups[k].hasMarker {
      if e.Queue? && e.key == k {
        QueueUnmarked(c, w, e);
      } else {
        NextPackets(c, w, e, k);
      }
    }
  }

  lemma QueueUnmarked(c: Config, w: System, e: Event)
    requires c.codec == Hevc && Valid(w.a) && e.Queue? && e.key in Next(c, w, e).a.groups
    ensures !Next(c, w, e).a.groups[e.key].hasMarker
  {
    hide SortedPackets, LastMarkerOf, GapFree;
    NotRemembered(c, w.a, e.key, e.p, e.now);
  }

  lemma {:induction false} HevcUnmarked(c: Config, n: nat, ws: seq<System>, es: seq<Event>, i: nat)
    requires c.codec == Hevc && Trace(c, ws, es) && ws[0] == Start(n) && i < |ws|
    ensures AllUnmarked(ws[i].a)
  {
    hide Next, Valid;
    if i > 0 {
      HevcUnmarked(c, n, ws, es, i - 1);
      SlotConservation(c, n, ws, es, i - 1);
      NextUnmarked(c, ws[i - 1], es[i - 1]);
      assert ws[i] == Next(c, ws[i - 1], es[i - 1]);
    }
  }

  /** The arriving packet decides: a marker in the group flushes it at once, else nothing is put out. */
  lemma QueueHevc(c: Config, s: AssemblerState, k: Key, p: GroupPacket, now: int)
    requires c.codec == Hevc && Valid(s) && k !in s.recent && now > 0
    ensures var r := QueuePacket(c, s, k, p, now);
      var had := if k in s.groups then s.groups[k].pkts else [];
      var held := if HasNum(had, p.num) then had else had + [p];
      if AnyMarker(held) then
        && |r.log| == |s.log| + 1 && s.log <= r.log && HandsOn(r.log[|s.log|], k, held)
        && k !in r.groups && k in r.recent && r.recent[k] == now
      else r.log == s.log && k in r.groups
  {
    hide HasNum, Flush, Holds, AddPacket, HandsOn;
    var t := Admit(s, k, p, now);
    var s1 := Apply(c, s, t);
    AdmitPackets(c, s, k, p, now);
    AdmitLogSame(c, s, t);
    StepKeepsValid(c, s, t);
    assert ValidGroup(s1.groups[k]);
    assert s1.groups[k].hasMarker <==> AnyMarker(s1.groups[k].pkts);
    if s1.groups[k].hasMarker {
      FlushHandsOn(s1, k, now);
    }
  }

  lemma AdmitLogSame(c: Config, s: AssemblerState, t: Step)
    requires Legal(c, s, t) && (t.SGiveBack? || t.SAdd?)
    ensures Apply(c, s, t).log == s.log
  {
  }

  /**
   Every arrival of an HEVC run, for a key that is not remembered as flushed. If one of the packets that
   arrived since the group began carries the marker, exactly these packets are flushed, at once and in
   circular order, and the key is no longer pending; if none does, nothing is put out.
   */
  lemma HevcArrival(c: Config, n: nat, ws: seq<System>, es: seq<Event>, k: Key, m: nat, i: nat)
    requires c.codec == Hevc && Trace(c, ws, es) && ws[0] == Start(n) && m <= i < |es|
    requires PendingSince(ws, k, m, i) && es[i].Queue? && es[i].key == k && k !in ws[i].a.recent
    ensures var s, r, arrived := ws[i].a, ws[i + 1].a, Arrivals(es, k, m, i + 1);
      if AnyMarker(arrived) then
        && |r.log| == |s.log| + 1 && s.log <= r.log && HandsOn(r.log[|s.log|], k, arrived)
        && k !in r.groups && k in r.recent && r.recent[k] == es[i].now
      else r.log == s.log && k in r.groups
  {
    hide Valid, QueuePacket, HandsOn, AnyMarker, HasNum;
    SlotConservation(c, n, ws, es, i);
    assert ws[i + 1] == Next(c, ws[i], es[i]);
    if m < i {
      PendingIsArrived(c, n, ws, es, k, m, i);
    }
    QueueHevc(c, ws[i].a, k, es[i].p, es[i].now);
  }

  // ---- nothing else is flushed ----

  ghost predicate NoFlush(before: seq<Output>, after: seq<Output>) {
    before <= after && forall i :: |before| <= i < |after| ==> !after[i].Flushed?
  }

  lemma {:induction false} RunsNoFlush(c: Config, s: AssemblerState, ts: seq<Step>, r: AssemblerState)
    requires Runs(c, s, ts, r) && NoIntake(ts) && AllUnmarked(s)
    ensures NoFlush(s.log, r.log)
    decreases ts
  {
    hide Complete, SortedPackets, LastMarkerOf;
    if ts != [] {
      RunsNoFlush(c, Apply(c, s, ts[0]), ts[1..], r);
    }
  }

  /** In an HEVC run no other event flushes anything: evictions only drop. */
  lemma HevcOtherEvents(c: Config, n: nat, ws: seq<System>, es: seq<Event>, i: nat)
    requires c.codec == Hevc && Trace(c, ws, es) && ws[0] == Start(n) && i < |es|
    requires es[i].Queue? ==> es[i].key in ws[i].a.recent
    ensures NoFlush(ws[i].a.log, ws[i + 1].a.log)
    ensures es[i].Queue? ==> ws[i + 1].a == GiveBack(ws[i].a, es[i].p.slot)
  {
    hide EvictStale;
    assert ws[i + 1] == Next(c, ws[i], es[i]);
    HevcUnmarked(c, n, ws, es, i);
    if es[i].Evict? {
      var ts := EvictStaleRuns(c, ws[i].a, 0, es[i].now);
      RunsNoFlush(c, ws[i].a, ts, ws[i + 1].a);
    }
  }

  // ---- an example ----

  const FIRST := GroupPacket(10, false, 0)
  const LAST := GroupPacket(12, true, 1)
  const UNIT := Key(1, 100)

  /** Packets 10 and 12 of a unit, the second with the marker; 11 is lost. */
  ghost function HoleEvents(now: int): seq<Event> {
    [Acquire(now), Acquire(now), Queue(UNIT, FIRST, now), Queue(UNIT, LAST, now)]
  }

  lemma BothAcquired(c: Config, now: int)
    ensures var w := Next(c, Next(c, Start(2), Acquire(now)), Acquire(now));
      w.held == multiset{0, 1} && w.a == AssemblerState(map[], [], [], map[], map[], [], [])
  {
    assert Start(2).a.free == [1, 0];
    var w1 := Next(c, Start(2), Acquire(now));
    assert w1.a.free == [1] && w1.held == multiset{0};
  }

  lemma HeldAfter(c: Config, w: System, e: Event)
    requires e.Queue?
    ensures Next(c, w, e).held == w.held - multiset{e.p.slot}
  {
  }

  lemma TwoInOrder(p: seq<GroupPacket>)
    requires multiset(p) == multiset([FIRST, LAST]) && OrderedFrom(p, 10)
    ensures p == [FIRST, LAST]
  {
    SameElements(p, [FIRST, LAST]);
    assert p[0] in p && p[1] in p;
    assert FIRST in p && LAST in p;
  }

  lemma HoleRun(c: Config, now: int) returns (ws: seq<System>)
    requires now > 0
    ensures Trace(c, ws, HoleEvents(now)) && ws[0] == Start(2)
    ensures ws[2].a == AssemblerState(map[], [], [], map[], map[], [], [])
  {
    hide Next, Start, Trace;
    var es, w0 := HoleEvents(now), Start(2);
    var w2 := Next(c, Next(c, w0, es[0]), es[1]);
    var w3 := Next(c, w2, es[2]);
    BothAcquired(c, now);
    HeldAfter(c, w2, es[2]);
    ws := [w0, Next(c, w0, es[0]), w2, w3, Next(c, w3, es[3])];
    HoleTrace(c, ws, now);
    assert |ws| == 5;
  }

  /** The two are flushed at once, as incomplete. */
  lemma HoleFlushedAtOnce(c: Config, now: int) returns (ws: seq<System>)
    requires c.codec == Hevc && now > 0
    ensures Trace(c, ws, HoleEvents(now)) && ws[0] == Start(2)
    ensures ws[4].a.log == [Flushed(UNIT, [FIRST, LAST], true)]
  {
    hide Next, Start, HandsOn, Clocked, Valid;
    ws := HoleRun(c, now);
    var es := HoleEvents(now);
    HoleArrivals(now);
    HevcArrival(c, 2, ws, es, UNIT, 2, 2);
    assert ValidRecent(ws[3].a) by { SlotConservation(c, 2, ws, es, 3); KeysApart(ws[3].a); }
    HevcArrival(c, 2, ws, es, UNIT, 2, 3);
    assert [FIRST, LAST][1].marker;
    HandsOnHole(ws[4].a.log[0]);
  }

  ghost predicate ValidRecent(s: AssemblerState) {
    forall k :: k in s.groups ==> k !in s.recent
  }

  lemma KeysApart(s: AssemblerState)
    requires Valid(s)
    ensures ValidRecent(s)
  {
  }

  lemma HandsOnHole(o: Output)
    requires HandsOn(o, UNIT, [FIRST, LAST])
    ensures o == Flushed(UNIT, [FIRST, LAST], true)
  {
    assert InWindow([FIRST, LAST], 10);
    TwoInOrder(o.packets);
    assert Sub16(o.packets[1].num, o.packets[0].num) == 2;
  }

  lemma HoleTrace(c: Config, ws: seq<System>, now: int)
    requires now > 0 && |ws| == 5 && ws[0] == Start(2) && ws[2].held == multiset{0, 1} && ws[3].held == multiset{1}
    requires forall i :: 0 <= i < 4 ==> ws[i + 1] == Next(c, ws[i], HoleEvents(now)[i])
    ensures Trace(c, ws, HoleEvents(now))
  {
    hide Next, Start;
  }

  lemma HoleArrivals(now: int)
    ensures Arrivals(HoleEvents(now), UNIT, 2, 3) == [FIRST] && Arrivals(HoleEvents(now), UNIT, 2, 4) == [FIRST, LAST]
  {
    var es := HoleEvents(now);
    assert Arrivals(es, UNIT, 2, 2) == [];
    assert [] + [FIRST] == [FIRST] && [FIRST] + [LAST] == [FIRST, LAST];
  }
}
