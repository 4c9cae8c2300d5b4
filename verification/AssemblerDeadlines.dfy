/** Which waiting groups get a repair deadline, which one, and how long a retired key is remembered. */
module AssemblerDeadlines {
  import opened Wire
  import opened CircularSort
  import opened AssemblerModel
  import opened AssemblerSteps
  import opened AssemblerInvariants
  import opened AssemblerRuns
  import opened AssemblerOutput
  import opened AssemblerReordering
  import opened AssemblerRelease

  // ---- a deadline is the full repair wait ----

  ghost predicate Armed(s: AssemblerState, k: Key) {
    k in s.groups && s.groups[k].deadline != 0
  }

  /** Every deadline is one that was there before, or the full repair wait from `now` on. */
  ghost predicate NewDeadlines(c: Config, s: AssemblerState, r: AssemblerState, now: int) {
    forall k :: Armed(r, k) ==>
      r.groups[k].deadline == now + c.repairWait || (Armed(s, k) && r.groups[k].deadline == s.groups[k].deadline)
  }

  lemma StepDeadlines(c: Config, s: AssemblerState, t: Step, now: int)
    requires Legal(c, s, t) && (t.SGiveBack? || t.now == now)
    ensures NewDeadlines(c, s, Apply(c, s, t), now)
  {
    hide Complete, SortedPackets, LastMarkerOf;
  }

  lemma {:induction false} RunsDeadlines(c: Config, s: AssemblerState, ts: seq<Step>, r: AssemblerState, now: int)
    requires Runs(c, s, ts, r) && AllAt(ts, now)
    ensures NewDeadlines(c, s, r, now)
    decreases ts
  {
    hide Apply, Legal;
    if ts != [] {
      StepDeadlines(c, s, ts[0], now);
      RunsDeadlines(c, Apply(c, s, ts[0]), ts[1..], r, now);
    }
  }

  /** In every run a deadline that an event arms lies the full repair wait after that event. */
  lemma DeadlineIsFullWait(c: Config, ws: seq<System>, es: seq<Event>, i: nat, k: Key)
    requires Trace(c, ws, es) && i < |es| && Armed(ws[i + 1].a, k) && !Armed(ws[i].a, k)
    ensures ws[i + 1].a.groups[k].deadline == es[i].now + c.repairWait
  {
    hide Next;
    assert ws[i + 1] == Next(c, ws[i], es[i]);
    NextDeadlines(c, ws[i], es[i]);
  }

  lemma NextDeadlines(c: Config, w: System, e: Event)
    ensures NewDeadlines(c, w.a, Next(c, w, e).a, e.now)
  {
    if e.Queue? || e.Evict? {
      var ts := NextRuns(c, w, e);
      RunsDeadlines(c, w.a, ts, Next(c, w, e).a, e.now);
    }
  }

  // ---- a unit with its marker never waits without a deadline ----

  ghost predicate SomeArmed(s: AssemblerState, ssrc: U32) {
    exists k: Key :: k.ssrc == ssrc && Armed(s, k)
  }

  /** If a group of the SSRC has its marker, some group of the SSRC has a deadline. */
  ghost predicate Watched(s: AssemblerState, ssrc: U32) {
    (exists k: Key :: k.ssrc == ssrc && k in s.groups && s.groups[k].hasMarker) ==> SomeArmed(s, ssrc)
  }

  lemma SettledWatched(s: AssemblerState, ssrc: U32)
    requires Settled(s, ssrc)
    ensures Watched(s, ssrc)
  {
    hide RankOf, Complete;
    if k: Key :| k.ssrc == ssrc && HeadWaits(s, k) {
      assert Armed(s, k);
    }
  }

  lemma {:induction false} RunsElsewhereSame(c: Config, s: AssemblerState, ts: seq<Step>, r: AssemblerState, ssrc: U32)
    requires Runs(c, s, ts, r) && AllElsewhere(ts, ssrc)
    ensures Anchor(r, ssrc) == Anchor(s, ssrc)
    ensures forall k: Key :: k.ssrc == ssrc ==>
              (k in r.groups <==> k in s.groups) && (k in s.groups ==> r.groups[k] == s.groups[k])
    decreases ts
  {
    hide Legal, Apply;
    if ts != [] {
      ElsewhereSame(c, s, ts[0], ssrc);
      RunsElsewhereSame(c, Apply(c, s, ts[0]), ts[1..], r, ssrc);
    }
  }

  lemma SameWatched(s: AssemblerState, r: AssemblerState, ssrc: U32)
    requires Watched(s, ssrc)
    requires forall k: Key :: k.ssrc == ssrc ==>
               (k in r.groups <==> k in s.groups) && (k in s.groups ==> r.groups[k] == s.groups[k])
    ensures Watched(r, ssrc)
  {
    if k: Key :| k.ssrc == ssrc && k in r.groups && r.groups[k].hasMarker {
      assert k in s.groups && s.groups[k].hasMarker;
      var k': Key :| k'.ssrc == ssrc && Armed(s, k');
      assert Armed(r, k');
    }
  }

  /** Arming changes only deadlines that were not armed, and arms every listed group without a marker. */
  ghost predicate OnlyArmed(s: AssemblerState, r: AssemblerState) {
    && r.groups.Keys == s.groups.Keys && r.lastMarker == s.lastMarker && r.log == s.log
    && forall k :: k in s.groups ==>
         && r.groups[k] == s.groups[k].(deadline := r.groups[k].deadline)
         && (s.groups[k].deadline != 0 ==> r.groups[k].deadline == s.groups[k].deadline)
  }

  lemma {:induction false} ArmUnmarkedIs(c: Config, s: AssemblerState, keys: seq<Key>, now: int)
    requires now > 0
    ensures var r := ArmUnmarked(c, s, keys, now);
      && OnlyArmed(s, r)
      && forall k :: k in keys && k in s.groups && !s.groups[k].hasMarker ==> Armed(r, k)
    decreases keys
  {
    if keys != [] {
      var k := keys[0];
      var s' := if k in s.groups && !s.groups[k].hasMarker && s.groups[k].deadline == 0 then Arm(c, s, k, now) else s;
      ArmUnmarkedIs(c, s', keys[1..], now);
    }
  }

  lemma SettleWatched(c: Config, s: AssemblerState, k: Key, now: int)
    requires Valid(s) && k in s.groups && now > 0
    ensures Watched(Settle(c, s, k, now), k.ssrc)
  {
    hide Complete, OrderedKeys, Flush, FlushReady, Valid, ArmUnmarked, Settled;
    var keys := OrderedKeys(s, k.ssrc);
    var earlier := keys[..IndexOf(keys, k)];
    var s1 := ArmUnmarked(c, s, earlier, now);
    OrderedKeysMembers(s, k.ssrc);
    if Blocked(s1, earlier) {
      var i :| 0 <= i < |earlier| && earlier[i] in s1.groups && s1.groups[earlier[i]].deadline != 0;
      assert keys[i] in keys && Armed(s1, earlier[i]);
    } else if !Complete(s1, k) {
      assert Armed(ArmIfIdle(c, s1, k, now), k);
    } else {
      assert Valid(s1) by {
        var ts := ArmUnmarkedRuns(c, s, earlier, k.ssrc, now);
        RunsKeep(c, s, ts, s1, now);
      }
      RetireKeepsValid(s1, k, now);
      FlushValid(s1, k, now);
      FlushReadySettles(c, Flush(s1, k, now), k.ssrc, now);
      SettledWatched(FlushReady(c, Flush(s1, k, now), k.ssrc, now), k.ssrc);
    }
  }

  lemma QueueWatched(c: Config, s: AssemblerState, k: Key, p: GroupPacket, now: int)
    requires c.codec == Avc && Valid(s) && Watched(s, k.ssrc) && now > 0
    ensures Watched(QueuePacket(c, s, k, p, now), k.ssrc)
  {
    hide Settle, Valid, SomeArmed;
    var t := Admit(s, k, p, now);
    var s1 := Apply(c, s, t);
    if k in s.recent {
      SameWatched(s, GiveBack(s, p.slot), k.ssrc);
    } else {
      StepKeepsValid(c, s, t);
      assert k in s1.groups by { AdmittedPending(c, s, k, p, now); }
      if s1.groups[k].hasMarker {
        SettleWatched(c, s1, k, now);
      } else {
        UnmarkedWatched(s, k, p, now);
      }
    }
  }

  lemma AdmittedPending(c: Config, s: AssemblerState, k: Key, p: GroupPacket, now: int)
    requires k !in s.recent
    ensures k in Apply(c, s, Admit(s, k, p, now)).groups
  {
  }

  /** A packet that leaves its group without a marker leaves the marked groups and the deadlines as they were. */
  lemma UnmarkedWatched(s: AssemblerState, k: Key, p: GroupPacket, now: int)
    requires Watched(s, k.ssrc) && k !in s.recent
    requires var r := if Holds(s, k, p.num) then GiveBack(s, p.slot) else AddPacket(s, k, p, now);
             k in r.groups && !r.groups[k].hasMarker
    ensures Watched(if Holds(s, k, p.num) then GiveBack(s, p.slot) else AddPacket(s, k, p, now), k.ssrc)
  {
    var r := if Holds(s, k, p.num) then GiveBack(s, p.slot) else AddPacket(s, k, p, now);
    if k0: Key :| k0.ssrc == k.ssrc && k0 in r.groups && r.groups[k0].hasMarker {
      assert k0 in s.groups && s.groups[k0].hasMarker;
      var k1: Key :| k1.ssrc == k.ssrc && Armed(s, k1);
      assert Armed(r, k1);
    }
  }

  lemma EvictWatched(c: Config, s: AssemblerState, now: int, ssrc: U32)
    requires Valid(s) && Watched(s, ssrc) && now > 0
    ensures Watched(EvictStale(c, s, now), ssrc)
  {
    hide EvictStale, Settled, Valid, Watched;
    if k: Key :| k.ssrc == ssrc && k in s.groups && TimedOut(c, s.groups[k], now) {
      EvictSettles(c, s, now, k);
      SettledWatched(EvictStale(c, s, now), ssrc);
    } else {
      var ts := EvictStaleRuns(c, s, ssrc, now);
      RunsElsewhereSame(c, s, ts, EvictStale(c, s, now), ssrc);
      SameWatched(s, EvictStale(c, s, now), ssrc);
    }
  }

  lemma NextWatched(c: Config, w: System, e: Event, ssrc: U32)
    requires c.codec == Avc && Valid(w.a) && Watched(w.a, ssrc) && e.now > 0
    ensures Watched(Next(c, w, e).a, ssrc)
  {
    hide QueuePacket, EvictStale, Valid, SomeArmed, Watched;
    match e
    case Queue(k, p, now) =>
      if k.ssrc == ssrc {
        QueueWatched(c, w.a, k, p, now);
      } else {
        var us := QueuePacketRuns(c, w.a, k, p, now);
        var ts := [Admit(w.a, k, p, now)] + us;
        RunsElsewhereSame(c, w.a, ts, Next(c, w, e).a, ssrc);
        SameWatched(w.a, Next(c, w, e).a, ssrc);
      }
    case Evict(now) => EvictWatched(c, w.a, now, ssrc);
    case ResetAll(_) => assert Watched(Next(c, w, e).a, ssrc) by { NothingWatched(Next(c, w, e).a, ssrc); }
    case _ => SameWatched(w.a, Next(c, w, e).a, ssrc);
  }

  lemma NothingWatched(s: AssemblerState, ssrc: U32)
    requires s.groups == map[]
    ensures Watched(s, ssrc)
  {
  }

  /**
   In every reachable state of an AVC assembler: while a group with its marker is pending, some group of its
   SSRC has an armed deadline, so an eviction will release what waits.
   */
  lemma {:induction false} NeverStuck(c: Config, n: nat, ws: seq<System>, es: seq<Event>, i: nat, ssrc: U32)
    requires c.codec == Avc && Trace(c, ws, es) && ws[0] == Start(n) && i < |ws|
    ensures Watched(ws[i].a, ssrc)
  {
    hide Next, Valid, Watched;
    if i == 0 {
      NothingWatched(ws[0].a, ssrc);
    } else {
      NeverStuck(c, n, ws, es, i - 1, ssrc);
      SlotConservation(c, n, ws, es, i - 1);
      NextWatched(c, ws[i - 1], es[i - 1], ssrc);
      assert ws[i] == Next(c, ws[i - 1], es[i - 1]);
    }
  }

  // ---- who is armed by an arrival ----

  ghost predicate InOrder(s: seq<Rank>) {
    forall i, j :: 0 <= i < j < |s| ==> !Before(s[j], s[i])
  }

  lemma {:induction false} StableInsertInOrder(s: seq<Rank>, e: Rank)
    requires InOrder(s)
    ensures InOrder(StableInsert(s, e))
  {
    if s != [] && Before(e, s[|s| - 1]) {
      var init, last := s[..|s| - 1], s[|s| - 1];
      StableInsertInOrder(init, e);
      StableInsertElements(init, e);
      SameElements(StableInsert(init, e), init + [e]);
      var r := StableInsert(init, e);
      forall i | 0 <= i < |r| ensures !Before(last, r[i]) {
        assert r[i] in init + [e];
      }
    } else if s != [] {
      forall i | 0 <= i < |s| ensures !Before(e, s[i]) {
        assert i == |s| - 1 || !Before(s[|s| - 1], s[i]);
      }
    }
  }

  lemma {:induction false} StableSortInOrder(s: seq<Rank>)
    ensures InOrder(StableSort(s))
  {
    hide StableInsert;
    if s != [] {
      StableSortInOrder(s[..|s| - 1]);
      StableInsertInOrder(StableSort(s[..|s| - 1]), s[|s| - 1]);
    }
  }

  lemma {:induction false} IndexOfIs(keys: seq<Key>, i: nat)
    requires Distinct(keys) && i < |keys|
    ensures IndexOf(keys, keys[i]) == i
  {
    if i > 0 {
      IndexOfIs(keys[1..], i - 1);
    }
  }

  /** The listed keys with their ranks, in order; `i` is the place of `k`. */
  lemma PlaceOf(s: AssemblerState, k: Key) returns (i: nat)
    requires Valid(s) && k in s.groups
    ensures var keys := OrderedKeys(s, k.ssrc);
      && i == IndexOf(keys, k) && i < |keys| && keys[i] == k
      && forall j :: 0 <= j < |keys| ==> keys[j] in s.groups && keys[j].ssrc == k.ssrc
    ensures InOrder(StableSort(Ranks(s, k.ssrc, s.groupOrder)))
  {
    hide RankOf, IndexOf, StableSort, Ranks;
    var keys := OrderedKeys(s, k.ssrc);
    OrderedKeysExact(s, k.ssrc);
    StableSortInOrder(Ranks(s, k.ssrc, s.groupOrder));
    assert k in s.groupOrder && k in keys;
    i :| 0 <= i < |keys| && keys[i] == k;
    IndexOfIs(keys, i);
    forall j | 0 <= j < |keys| ensures keys[j] in s.groups && keys[j].ssrc == k.ssrc {
      assert keys[j] in keys;
    }
  }

  lemma RankAt(s: AssemblerState, ssrc: U32, j: nat)
    requires j < |OrderedKeys(s, ssrc)|
    ensures var sorted, k := StableSort(Ranks(s, ssrc, s.groupOrder)), OrderedKeys(s, ssrc)[j];
      |sorted| == |OrderedKeys(s, ssrc)| && k in s.groups && sorted[j] == RankOf(s, k)
  {
    hide RankOf, StableSort;
    var ranks := Ranks(s, ssrc, s.groupOrder);
    var sorted := StableSort(ranks);
    StableSortElements(ranks);
    SameElements(sorted, ranks);
    RanksSound(s, ssrc, s.groupOrder);
    assert sorted[j] in sorted && sorted[j] in ranks;
  }

  /** A key before `k` in the order is a pending group that does not come after it. */
  lemma EarlierSound(s: AssemblerState, k: Key, k': Key)
    requires Valid(s) && k in s.groups && k' in OrderedKeys(s, k.ssrc)[..IndexOf(OrderedKeys(s, k.ssrc), k)]
    ensures k' in s.groups && k'.ssrc == k.ssrc && !Before(RankOf(s, k), RankOf(s, k'))
  {
    hide RankOf, IndexOf, OrderedKeys, Valid;
    var keys := OrderedKeys(s, k.ssrc);
    var i := PlaceOf(s, k);
    var j :| 0 <= j < i && keys[j] == k';
    RankAt(s, k.ssrc, i);
    RankAt(s, k.ssrc, j);
  }

  /** Every group that comes before `k` is before it in the order. */
  lemma EarlierAll(s: AssemblerState, k: Key, k': Key)
    requires Valid(s) && k in s.groups && k' in s.groups && k'.ssrc == k.ssrc && Before(RankOf(s, k'), RankOf(s, k))
    ensures k' in OrderedKeys(s, k.ssrc)[..IndexOf(OrderedKeys(s, k.ssrc), k)]
  {
    hide RankOf, IndexOf, OrderedKeys, Valid;
    var keys := OrderedKeys(s, k.ssrc);
    var i := PlaceOf(s, k);
    var j := PlaceOf(s, k');
    RankAt(s, k.ssrc, i);
    RankAt(s, k.ssrc, j);
    assert keys[..i][j] == k';
  }

  /** Every unmarked group before `k` waits for a deadline, and so does `k` or a group that is not behind it. */
  ghost predicate Queued(s: AssemblerState, k: Key)
    requires k in s.groups
  {
    && (forall k' :: k' in s.groups && !s.groups[k'].hasMarker && k'.ssrc == k.ssrc ==>
          Before(RankOf(s, k'), RankOf(s, k)) ==> Armed(s, k'))
    && exists k' :: Armed(s, k') && k'.ssrc == k.ssrc && !Before(RankOf(s, k), RankOf(s, k'))
  }

  lemma OnlyArmedRank(s: AssemblerState, r: AssemblerState, k: Key)
    requires OnlyArmed(s, r) && k in s.groups
    ensures k in r.groups && RankOf(r, k) == RankOf(s, k)
  {
    hide SortedPackets;
    assert k in r.groups.Keys;
  }

  lemma SettleQueues(c: Config, s: AssemblerState, k: Key, now: int)
    requires Valid(s) && k in s.groups && now > 0 && k in Settle(c, s, k, now).groups
    ensures Queued(Settle(c, s, k, now), k)
  {
    hide Complete, OrderedKeys, Flush, FlushReady, Valid, ArmUnmarked, RankOf;
    var keys := OrderedKeys(s, k.ssrc);
    var earlier := keys[..IndexOf(keys, k)];
    var s1, r := ArmUnmarked(c, s, earlier, now), Settle(c, s, k, now);
    ArmUnmarkedIs(c, s, earlier, now);
    if !Blocked(s1, earlier) && Complete(s1, k) {
      FlushedGone(c, s1, k, now);
    } else {
      assert OnlyArmed(s, r);
      OnlyArmedRank(s, r, k);
      forall k' | k' in r.groups && k'.ssrc == k.ssrc && Before(RankOf(r, k'), RankOf(r, k)) && !r.groups[k'].hasMarker
        ensures Armed(r, k')
      {
        assert k' in s.groups.Keys;
        OnlyArmedRank(s, r, k');
        EarlierAll(s, k, k');
        assert Armed(s1, k');
      }
      if Blocked(s1, earlier) {
        var i :| 0 <= i < |earlier| && earlier[i] in s1.groups && s1.groups[earlier[i]].deadline != 0;
        EarlierSound(s, k, earlier[i]);
        OnlyArmedRank(s, r, earlier[i]);
        assert Armed(r, earlier[i]);
      } else {
        assert Armed(r, k);
      }
    }
  }

  lemma FlushedGone(c: Config, s: AssemblerState, k: Key, now: int)
    requires k in s.groups
    ensures k !in FlushReady(c, Flush(s, k, now), k.ssrc, now).groups
  {
    hide FlushReady, Complete, SortedPackets, LastMarkerOf, GapFree;
    StaysGone(c, Flush(s, k, now), k, now);
  }

  lemma {:induction false} StaysGone(c: Config, s: AssemblerState, k: Key, now: int)
    requires k !in s.groups
    ensures k !in FlushReady(c, s, k.ssrc, now).groups
    decreases |s.groups|
  {
    hide Complete, OrderedKeys, SortedPackets, LastMarkerOf, GapFree;
    var keys := OrderedKeys(s, k.ssrc);
    if keys != [] && keys[0] in s.groups && Complete(s, keys[0]) {
      FlushShrinks(s, keys[0], now);
      StaysGone(c, Flush(s, keys[0], now), k, now);
    }
  }

  /**
   In every AVC run: an arrival that leaves its group pending with a marker leaves every unmarked group before
   it with a deadline, and the group itself or one not behind it.
   */
  lemma ArrivalQueues(c: Config, n: nat, ws: seq<System>, es: seq<Event>, i: nat)
    requires c.codec == Avc && Trace(c, ws, es) && ws[0] == Start(n) && i < |es| && es[i].Queue?
    requires var k, r := es[i].key, ws[i + 1].a; k in r.groups && r.groups[k].hasMarker
    ensures Queued(ws[i + 1].a, es[i].key)
  {
    hide Settle, Valid, Queued, Holds, AddPacket;
    SlotConservation(c, n, ws, es, i);
    SlotConservation(c, n, ws, es, i + 1);
    assert ws[i + 1] == Next(c, ws[i], es[i]);
    var s, k, p, now := ws[i].a, es[i].key, es[i].p, es[i].now;
    assert k !in s.recent by { NotRemembered(c, s, k, p, now); }
    var t := Admit(s, k, p, now);
    StepKeepsValid(c, s, t);
    AdmittedPending(c, s, k, p, now);
    SettleQueues(c, Apply(c, s, t), k, now);
  }

  // ---- how long a retired key is remembered ----

  lemma {:induction false} FlushReadyRecent(c: Config, s: AssemblerState, ssrc: U32, now: int, k: Key)
    requires k in s.recent && k !in s.groups
    ensures var r := FlushReady(c, s, ssrc, now); k in r.recent && r.recent[k] == s.recent[k] && k !in r.groups
    decreases |s.groups|
  {
    hide Complete, OrderedKeys, SortedPackets, LastMarkerOf, GapFree;
    var keys := OrderedKeys(s, ssrc);
    if keys != [] && keys[0] in s.groups && Complete(s, keys[0]) {
      FlushShrinks(s, keys[0], now);
      FlushReadyRecent(c, Flush(s, keys[0], now), ssrc, now, k);
    }
  }

  lemma {:induction false} FlushReadyAllRecent(c: Config, s: AssemblerState, ssrcs: seq<U32>, now: int, k: Key)
    requires k in s.recent && k !in s.groups
    ensures var r := FlushReadyAll(c, s, ssrcs, now); k in r.recent && r.recent[k] == s.recent[k] && k !in r.groups
    decreases ssrcs
  {
    hide FlushReady;
    if ssrcs != [] {
      FlushReadyRecent(c, s, ssrcs[0], now, k);
      FlushReadyAllRecent(c, FlushReady(c, s, ssrcs[0], now), ssrcs[1..], now, k);
    }
  }

  /** An eviction forgets exactly the keys that were retired longer ago than the dedup time. */
  lemma EvictForgets(c: Config, s: AssemblerState, now: int, k: Key)
    requires Valid(s) && now > 0 && k in s.recent
    ensures var r := EvictStale(c, s, now);
      && (k in r.recent <==> now - s.recent[k] <= c.dedupTtl) && (k in r.recent ==> r.recent[k] == s.recent[k])
  {
    hide EvictStale, Dropping, DropSsrcs, FlushReadyAll, TimedOut;
    EvictIs(c, s, now);
    DroppingRecent(c, s, now, k);
    DroppingGroups(c, s, now);
    FlushReadyAllRecent(c, Dropping(c, s, now), DropSsrcs(c, s, now), now, k);
  }

  lemma QueueRemembers(c: Config, s: AssemblerState, k': Key, p: GroupPacket, now: int, k: Key)
    requires Valid(s) && k in s.recent
    ensures var r := QueuePacket(c, s, k', p, now); k in r.recent && r.recent[k] == s.recent[k]
  {
    hide QueuePacket;
    var us := QueuePacketRuns(c, s, k', p, now);
    RunsRemember(c, s, [Admit(s, k', p, now)] + us, QueuePacket(c, s, k', p, now), k);
  }

  lemma {:induction false} RunsRemember(c: Config, s: AssemblerState, ts: seq<Step>, r: AssemblerState, k: Key)
    requires Runs(c, s, ts, r) && k in s.recent && k !in s.groups && forall i :: 0 <= i < |ts| ==> !ts[i].SForget?
    ensures k in r.recent && r.recent[k] == s.recent[k]
    decreases ts
  {
    hide Complete, SortedPackets, LastMarkerOf;
    if ts != [] {
      RunsRemember(c, Apply(c, s, ts[0]), ts[1..], r, k);
    }
  }

  /** The event makes the assembler forget a key retired at `since`. */
  ghost predicate Forgets(c: Config, e: Event, since: int) {
    e.ResetAll? || (e.Evict? && e.now - since > c.dedupTtl)
  }

  lemma NextRemembers(c: Config, w: System, e: Event, k: Key)
    requires Valid(w.a) && e.now > 0 && k in w.a.recent
    ensures var r := Next(c, w, e).a;
      && (k in r.recent <==> !Forgets(c, e, w.a.recent[k])) && (k in r.recent ==> r.recent[k] == w.a.recent[k])
  {
    hide QueuePacket, EvictStale, Valid;
    match e
    case Queue(k', p, now) => QueueRemembers(c, w.a, k', p, now, k);
    case Evict(now) => EvictForgets(c, w.a, now, k);
    case _ =>
  }

  /**
   In every run: late packets of a unit retired at some time are refused for as long as no eviction comes more
   than the dedup time later and no reset, and no longer.
   */
  lemma {:induction false} RememberedUntil(c: Config, n: nat, ws: seq<System>, es: seq<Event>, i: nat, j: nat, k: Key)
    requires Trace(c, ws, es) && ws[0] == Start(n) && i <= j < |ws| && k in ws[i].a.recent
    ensures (forall q :: i <= q < j ==> !Forgets(c, es[q], ws[i].a.recent[k])) ==>
              k in ws[j].a.recent && ws[j].a.recent[k] == ws[i].a.recent[k]
    ensures i < j && Forgets(c, es[j - 1], ws[i].a.recent[k]) ==>
              (forall q :: i <= q < j - 1 ==> !Forgets(c, es[q], ws[i].a.recent[k])) ==> k !in ws[j].a.recent
  {
    hide Next, Valid, Forgets;
    if i < j {
      RememberedUntil(c, n, ws, es, i, j - 1, k);
      SlotConservation(c, n, ws, es, j - 1);
      assert ws[j] == Next(c, ws[j - 1], es[j - 1]);
      if k in ws[j - 1].a.recent {
        NextRemembers(c, ws[j - 1], es[j - 1], k);
      }
    }
  }

  /** A retired key is remembered from that event on: it is pending no more and its time is the event's. */
  lemma RetiredRemembered(c: Config, n: nat, ws: seq<System>, es: seq<Event>, i: nat, k: Key)
    requires Trace(c, ws, es) && ws[0] == Start(n) && i < |es| && !es[i].ResetAll?
    requires k in ws[i].a.groups && k !in ws[i + 1].a.groups
    ensures k in ws[i + 1].a.recent && ws[i + 1].a.recent[k] == es[i].now
  {
    hide Next, EvictStale, QueuePacket;
    assert ws[i + 1] == Next(c, ws[i], es[i]);
    RetiredNow(c, ws[i], es[i], k);
  }

  lemma RetiredNow(c: Config, w: System, e: Event, k: Key)
    requires k in w.a.groups && k !in Next(c, w, e).a.groups && !e.ResetAll?
    ensures k in Next(c, w, e).a.recent && Next(c, w, e).a.recent[k] == e.now
  {
    hide EvictStale, QueuePacket;
    if e.Queue? || e.Evict? {
      var ts := NextRuns(c, w, e);
      RunsRetire(c, w.a, ts, Next(c, w, e).a, k, e.now);
    }
  }

  lemma {:induction false} RunsRetire(c: Config, s: AssemblerState, ts: seq<Step>, r: AssemblerState, k: Key, now: int)
    requires Runs(c, s, ts, r) && AllAt(ts, now)
    requires k in s.groups || (k in s.recent && s.recent[k] == now)
    ensures k in r.groups || (k in r.recent && r.recent[k] == now)
    decreases ts
  {
    hide Complete, SortedPackets, LastMarkerOf;
    if ts != [] {
      RunsRetire(c, Apply(c, s, ts[0]), ts[1..], r, k, now);
    }
  }

  /** After a reset nothing is pending, remembered or anchored. */
  lemma ResetForgets(c: Config, w: System, now: int)
    ensures var r := Next(c, w, ResetAll(now)).a;
      r.groups == map[] && r.groupOrder == [] && r.deadlineOrder == [] && r.recent == map[]
      && forall ssrc :: Anchor(r, ssrc) == None
  {
  }
}
