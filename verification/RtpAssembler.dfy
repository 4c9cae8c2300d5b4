/**
 The packet pool (src/media/packet_pool.h) and the assembler object with its loops
 (src/media/rtp_assembler.cpp), each method proved against the function that specifies it.
 */
module RtpAssembler {
  import opened Wire
  import opened CircularSort
  import opened AssemblerModel
  import opened AssemblerSteps
  import opened AssemblerInvariants
  import opened AssemblerRuns

  class PacketPool {
    const count: nat
    var free: seq<nat>

    constructor (count: nat)
      ensures this.count == count && free == Start(count).a.free
    {
      this.count := count;
      var list: seq<nat> := [];
      var i := count;
      while i > 0
        invariant 0 <= i <= count && |list| == count - i
        invariant forall j :: 0 <= j < |list| ==> list[j] == count - 1 - j
      {
        i := i - 1;
        list := list + [i];
      }
      free := list;
    }

    /** `None` stands for `UINT32_MAX`: the pool is exhausted. */
    method Acquire() returns (slot: Option<nat>)
      modifies this
      ensures old(free) == [] ==> slot.None? && free == []
      ensures old(free) != [] ==> slot.Some? && old(free) == free + [slot.value]
    {
      if free == [] {
        return None;
      }
      slot := Some(free[|free| - 1]);
      free := free[..|free| - 1];
    }

    method Release(slot: nat)
      modifies this
      ensures free == old(free) + [slot]
    {
      free := free + [slot];
    }
  }

  class Assembler {
    const pool: PacketPool
    const cfg: Config
    var groups: map<Key, Group>
    var groupOrder: seq<Key>
    var deadlineOrder: seq<Key>
    var recent: map<Key, int>
    var lastMarker: map<U32, U16>
    var log: seq<Output>

    constructor (pool: PacketPool, cfg: Config)
      ensures this.pool == pool && this.cfg == cfg
      ensures View() == AssemblerState(map[], [], [], map[], map[], pool.free, [])
    {
      this.pool, this.cfg := pool, cfg;
      groups, groupOrder, deadlineOrder, recent, lastMarker, log := map[], [], [], map[], map[], [];
    }

    ghost function View(): AssemblerState
      reads this, pool
    {
      AssemblerState(groups, groupOrder, deadlineOrder, recent, lastMarker, pool.free, log)
    }

    /** `release_group`: the slots return to the pool in arrival order. */
    method ReleaseGroup(pkts: seq<GroupPacket>)
      modifies pool
      ensures pool.free == old(pool.free) + Slots(pkts)
    {
      for i := 0 to |pkts|
        invariant pool.free == old(pool.free) + Slots(pkts[..i])
      {
        pool.Release(pkts[i].slot);
        assert Slots(pkts[..i + 1]) == Slots(pkts[..i]) + [pkts[i].slot];
      }
      assert pkts[..|pkts|] == pkts;
    }

    /** Whether some neighbours in the sorted list are more than one apart. */
    static method HasGap(p: seq<GroupPacket>) returns (gap: bool)
      ensures gap == !GapFree(p)
    {
      for i := 0 to |p|
        invariant forall j :: 0 <= j < |p| - 1 && j < i ==> Sub16(p[j + 1].num, p[j].num) <= 1
      {
        if i + 1 < |p| && Sub16(p[i + 1].num, p[i].num) > 1 {
          return true;
        }
      }
      return false;
    }

    static method FindLastMarker(p: seq<GroupPacket>) returns (m: Option<U16>)
      ensures m == LastMarkerOf(p)
    {
      var i := |p|;
      assert p[..i] == p;
      while i > 0
        invariant 0 <= i <= |p|
        invariant LastMarkerOf(p) == LastMarkerOf(p[..i])
      {
        i := i - 1;
        if p[i].marker {
          return Some(p[i].num);
        }
        assert p[..i + 1][..i] == p[..i];
      }
      assert p[..0] == [];
      return None;
    }

    method GroupComplete(k: Key) returns (done: bool)
      requires k in groups
      ensures done == Complete(View(), k)
    {
      var p := ComputeSortedPackets(groups[k].pkts);
      if p == [] || !groups[k].hasMarker || !p[|p| - 1].marker {
        return false;
      }
      var gap := HasGap(p);
      if gap {
        return false;
      }
      return k.ssrc !in lastMarker || p[0].num == Add16(lastMarker[k.ssrc], 1);
    }

    method OrderKeys(ssrc: U32) returns (keys: seq<Key>)
      ensures keys == OrderedKeys(View(), ssrc)
    {
      var ranks: seq<Rank> := [];
      for i := 0 to |groupOrder|
        invariant ranks == Ranks(View(), ssrc, groupOrder[..i])
      {
        var k := groupOrder[i];
        assert groupOrder[..i + 1][..i] == groupOrder[..i];
        if k in groups && k.ssrc == ssrc {
          var dist: int := 0;
          if k.ssrc in lastMarker {
            if groups[k].pkts == [] {
              dist := 1_000_000_000_000_000_000;
            } else {
              var p := ComputeSortedPackets(groups[k].pkts);
              SameElements(p, groups[k].pkts);
              dist := Sub16(p[0].num, Add16(lastMarker[k.ssrc], 1));
            }
          }
          ranks := ranks + [Rank(dist, groups[k].arrival, k)];
        }
      }
      assert groupOrder[..|groupOrder|] == groupOrder;
      var sorted := StableSort(ranks);
      keys := [];
      for i := 0 to |sorted|
        invariant keys == KeysOf(sorted[..i])
      {
        keys := keys + [sorted[i].key];
      }
      assert sorted[..|sorted|] == sorted;
    }

    method ArmDeadline(k: Key, now: int)
      requires k in groups
      modifies this
      ensures View() == old(Arm(cfg, View(), k, now))
    {
      groups := groups[k := groups[k].(deadline := now + cfg.repairWait)];
      deadlineOrder := deadlineOrder + [k];
    }

    method FlushGroup(k: Key, now: int)
      modifies this, pool
      ensures View() == old(if k in groups then Flush(View(), k, now) else View())
    {
      hide SortedPackets, LastMarkerOf, Slots, Remove, GapFree;
      if k !in groups {
        return;
      }
      var g := groups[k];
      groups := groups - {k};
      groupOrder := Remove(groupOrder, k);
      deadlineOrder := Remove(deadlineOrder, k);
      recent := recent[k := now];
      var sorted := ComputeSortedPackets(g.pkts);
      var m := FindLastMarker(sorted);
      if m.Some? {
        lastMarker := lastMarker[k.ssrc := m.value];
      }
      var gap := HasGap(sorted);
      log := log + [Flushed(k, sorted, gap)];
      ReleaseGroup(g.pkts);
    }

    method DropGroup(k: Key, reason: Reason, now: int)
      modifies this, pool
      ensures View() == old(if k in groups then Drop(View(), k, reason, now) else View())
    {
      hide SortedPackets, LastMarkerOf, Slots, Remove;
      if k !in groups {
        return;
      }
      var g := groups[k];
      groups := groups - {k};
      groupOrder := Remove(groupOrder, k);
      deadlineOrder := Remove(deadlineOrder, k);
      recent := recent[k := now];
      var sorted := ComputeSortedPackets(g.pkts);
      var m := FindLastMarker(sorted);
      if m.Some? {
        lastMarker := lastMarker[k.ssrc := m.value];
      } else {
        lastMarker := lastMarker - {k.ssrc};
      }
      log := log + [Dropped(k, m.Some?, reason, |g.pkts|, now - g.arrival)];
      ReleaseGroup(g.pkts);
    }

    /** `flush_ready` terminates because each round that does not return removes a group. */
    method FlushReadyGroups(ssrc: U32, now: int)
      modifies this, pool
      ensures View() == old(FlushReady(cfg, View(), ssrc, now))
    {
      while true
        invariant FlushReady(cfg, View(), ssrc, now) == old(FlushReady(cfg, View(), ssrc, now))
        decreases |groups|
      {
        var keys := OrderKeys(ssrc);
        if keys == [] || keys[0] !in groups {
          return;
        }
        var done := GroupComplete(keys[0]);
        if !done {
          if groups[keys[0]].deadline == 0 {
            ArmDeadline(keys[0], now);
          }
          return;
        }
        ghost var before := View();
        FlushShrinks(before, keys[0], now);
        FlushGroup(keys[0], now);
        assert View() == Flush(before, keys[0], now);
      }
    }

    /** The search for the packet's sequence number in its group. */
    static method IsDuplicate(pkts: seq<GroupPacket>, num: U16) returns (dup: bool)
      ensures dup <==> exists i :: 0 <= i < |pkts| && pkts[i].num == num
    {
      for i := 0 to |pkts|
        invariant forall j :: 0 <= j < i ==> pkts[j].num != num
      {
        if pkts[i].num == num {
          return true;
        }
      }
      return false;
    }

    method ArmEarlier(keys: seq<Key>, now: int)
      modifies this
      ensures View() == old(ArmUnmarked(cfg, View(), keys, now))
    {
      for i := 0 to |keys|
        invariant ArmUnmarked(cfg, View(), keys[i..], now) == old(ArmUnmarked(cfg, View(), keys, now))
      {
        var k := keys[i];
        assert keys[i..][1..] == keys[i + 1..];
        if k in groups && !groups[k].hasMarker && groups[k].deadline == 0 {
          ArmDeadline(k, now);
        }
      }
    }

    method IsBlocked(keys: seq<Key>) returns (blocked: bool)
      ensures blocked == Blocked(View(), keys)
    {
      for i := 0 to |keys|
        invariant forall j :: 0 <= j < i ==> !(keys[j] in groups && groups[keys[j]].deadline != 0)
      {
        if keys[i] in groups && groups[keys[i]].deadline != 0 {
          return true;
        }
      }
      return false;
    }

    static method FindKey(keys: seq<Key>, k: Key) returns (i: nat)
      ensures i == IndexOf(keys, k) && i <= |keys|
    {
      i := 0;
      while i < |keys|
        invariant i <= |keys| && IndexOf(keys, k) == i + IndexOf(keys[i..], k)
      {
        if keys[i] == k {
          return;
        }
        assert keys[i..][1..] == keys[i + 1..];
        i := i + 1;
      }
    }

    method SettleGroup(k: Key, now: int)
      requires k in groups
      modifies this, pool
      ensures View() == old(Settle(cfg, View(), k, now))
    {
      hide FlushReady, ArmUnmarked, OrderedKeys, Complete, Flush, IndexOf;
      var ordered := OrderKeys(k.ssrc);
      var mine := FindKey(ordered, k);
      ArmEarlier(ordered[..mine], now);
      var blocked := IsBlocked(ordered[..mine]);
      if blocked {
        return;
      }
      var done := GroupComplete(k);
      if !done {
        if groups[k].deadline == 0 {
          ArmDeadline(k, now);
        }
        return;
      }
      FlushGroup(k, now);
      FlushReadyGroups(k.ssrc, now);
    }

    /** The assembler takes over the packet's slot. */
    method Enqueue(k: Key, p: GroupPacket, now: int)
      requires Valid(View()) && now > 0
      modifies this, pool
      ensures View() == old(QueuePacket(cfg, View(), k, p, now))
      ensures Valid(View()) && Owned(View()) == old(Owned(View())) + multiset{p.slot}
    {
      hide Settle, Flush, Valid, Owned;
      QueueKeeps(cfg, View(), k, p, now);
      if k in recent {
        pool.Release(p.slot);
        return;
      }
      var dup := false;
      if k in groups {
        dup := IsDuplicate(groups[k].pkts, p.num);
      }
      assert dup == Holds(View(), k, p.num);
      if dup {
        pool.Release(p.slot);
      } else if k in groups {
        var g := groups[k];
        groups := groups[k := g.(pkts := g.pkts + [p], hasMarker := g.hasMarker || p.marker)];
      } else {
        groups := groups[k := Group([p], now, 0, p.marker)];
        groupOrder := groupOrder + [k];
      }
      if !groups[k].hasMarker {
        return;
      }
      if cfg.codec != Avc {
        FlushGroup(k, now);
        return;
      }
      SettleGroup(k, now);
    }

    method DropGroups(keys: seq<Key>, reason: Reason, now: int, unblocked: seq<U32>) returns (all: seq<U32>)
      requires forall k :: k in keys ==> k in groups
      requires Distinct(keys)
      modifies this, pool
      ensures View() == old(DropAll(View(), keys, reason, now))
      ensures all == SsrcsOf(keys, unblocked)
    {
      hide Drop;
      all := unblocked;
      for i := 0 to |keys|
        invariant DropAll(View(), keys[i..], reason, now) == old(DropAll(View(), keys, reason, now))
        invariant forall j :: i <= j < |keys| ==> keys[j] in groups
        invariant SsrcsOf(keys[i..], all) == SsrcsOf(keys, unblocked)
      {
        assert keys[i..][1..] == keys[i + 1..];
        ghost var before := View();
        DropRemoves(before, keys[i], reason, now);
        DropGroup(keys[i], reason, now);
        all := InsertSsrc(all, keys[i].ssrc);
      }
    }

    method ExpiredKeys(now: int) returns (keys: seq<Key>)
      ensures keys == RepairExpiredKeys(View(), deadlineOrder, now)
    {
      keys := [];
      for i := 0 to |deadlineOrder|
        invariant keys == RepairExpiredKeys(View(), deadlineOrder[..i], now)
      {
        var k := deadlineOrder[i];
        assert deadlineOrder[..i + 1][..i] == deadlineOrder[..i];
        if k in groups && groups[k].deadline != 0 && now >= groups[k].deadline {
          keys := keys + [k];
        }
      }
      assert deadlineOrder[..|deadlineOrder|] == deadlineOrder;
    }

    method StaleKeys(now: int) returns (keys: seq<Key>)
      ensures keys == TtlExpiredKeys(cfg, View(), groupOrder, now)
    {
      keys := [];
      for i := 0 to |groupOrder|
        invariant keys == TtlExpiredKeys(cfg, View(), groupOrder[..i], now)
      {
        var k := groupOrder[i];
        assert groupOrder[..i + 1][..i] == groupOrder[..i];
        if k in groups && groups[k].deadline == 0 && now - groups[k].arrival > cfg.groupTtl {
          keys := keys + [k];
        }
      }
      assert groupOrder[..|groupOrder|] == groupOrder;
    }

    method FlushUnblocked(ssrcs: seq<U32>, now: int)
      modifies this, pool
      ensures View() == old(FlushReadyAll(cfg, View(), ssrcs, now))
    {
      hide FlushReady;
      for i := 0 to |ssrcs|
        invariant FlushReadyAll(cfg, View(), ssrcs[i..], now) == old(FlushReadyAll(cfg, View(), ssrcs, now))
      {
        assert ssrcs[i..][1..] == ssrcs[i + 1..];
        FlushReadyGroups(ssrcs[i], now);
      }
    }

    method Evict(now: int)
      requires Valid(View()) && now > 0
      modifies this, pool
      ensures View() == old(EvictStale(cfg, View(), now))
      ensures Valid(View()) && Owned(View()) == old(Owned(View()))
    {
      hide DropAll, RepairExpiredKeys, TtlExpiredKeys, SsrcsOf, FlushReadyAll, Valid, Owned;
      ghost var s := View();
      EvictKeeps(cfg, s, now);
      var expired := ExpiredKeys(now);
      ExpiredPending(s, now);
      var unblocked := DropGroups(expired, RepairTimeout, now, []);
      ghost var s1 := View();
      ExpiredKeepsValid(cfg, s, now);
      var ttl := StaleKeys(now);
      StalePending(cfg, s1, now);
      unblocked := DropGroups(ttl, MarkerTimeout, now, unblocked);
      FlushUnblocked(unblocked, now);
      recent := map k | k in recent && now - recent[k] <= cfg.dedupTtl :: recent[k];
    }

    method ReleaseAll()
      modifies pool
      ensures pool.free == old(pool.free) + PendingSlots(groups, groupOrder)
    {
      for i := 0 to |groupOrder|
        invariant pool.free + PendingSlots(groups, groupOrder[i..]) == old(pool.free) + PendingSlots(groups, groupOrder)
      {
        hide Slots;
        var k := groupOrder[i];
        assert groupOrder[i..][1..] == groupOrder[i + 1..];
        if k in groups {
          ReleaseGroup(groups[k].pkts);
        }
      }
      assert groupOrder[|groupOrder|..] == [];
    }

    /** Session teardown: every pending slot returns to the pool. */
    method ResetAll()
      modifies this, pool
      ensures View() == old(Reset(View()))
      ensures Valid(View()) && Owned(View()) == old(Owned(View()))
    {
      hide PendingSlots, Owned, Valid;
      ResetKeeps(View());
      ReleaseAll();
      groups, groupOrder, deadlineOrder, recent, lastMarker := map[], [], [], map[], map[];
      log := log + [Restarted];
    }
  }

  lemma DropRemoves(s: AssemblerState, k: Key, reason: Reason, now: int)
    requires k in s.groups
    ensures Drop(s, k, reason, now).groups == s.groups - {k}
  {
  }

  lemma ExpiredDistinct(s: AssemblerState, order: seq<Key>, now: int)
    requires Distinct(order)
    ensures Distinct(RepairExpiredKeys(s, order, now))
  {
    if order != [] {
      ExpiredDistinct(s, order[..|order| - 1], now);
      RepairExpiredExact(s, order[..|order| - 1], now);
    }
  }

  lemma StaleDistinct(c: Config, s: AssemblerState, order: seq<Key>, now: int)
    requires Distinct(order)
    ensures Distinct(TtlExpiredKeys(c, s, order, now))
  {
    if order != [] {
      StaleDistinct(c, s, order[..|order| - 1], now);
      TtlExpiredExact(c, s, order[..|order| - 1], now);
    }
  }

  lemma ExpiredPending(s: AssemblerState, now: int)
    requires Valid(s)
    ensures var keys := RepairExpiredKeys(s, s.deadlineOrder, now);
            Distinct(keys) && forall k :: k in keys ==> k in s.groups
  {
    ExpiredDistinct(s, s.deadlineOrder, now);
    RepairExpiredExact(s, s.deadlineOrder, now);
  }

  lemma StalePending(c: Config, s: AssemblerState, now: int)
    requires Valid(s)
    ensures var keys := TtlExpiredKeys(c, s, s.groupOrder, now);
            Distinct(keys) && forall k :: k in keys ==> k in s.groups
  {
    StaleDistinct(c, s, s.groupOrder, now);
    TtlExpiredExact(c, s, s.groupOrder, now);
  }

  lemma ExpiredKeepsValid(c: Config, s: AssemblerState, now: int)
    requires Valid(s) && now > 0
    ensures Valid(DropAll(s, RepairExpiredKeys(s, s.deadlineOrder, now), RepairTimeout, now))
  {
    var keys := RepairExpiredKeys(s, s.deadlineOrder, now);
    RepairExpiredExact(s, s.deadlineOrder, now);
    var ts := DropAllRuns(c, s, keys, RepairTimeout, 0, now);
    RunsKeep(c, s, ts, DropAll(s, keys, RepairTimeout, now), now);
  }
}
