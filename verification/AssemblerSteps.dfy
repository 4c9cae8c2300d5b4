/**
 Every public operation of the assembler is a run of elementary steps whose guards record what
 the code has checked. A property kept by each guarded step is then kept by every operation.
 */
module AssemblerSteps {
  import opened Wire
  import opened CircularSort
  import opened AssemblerModel

  datatype Step =
    | SGiveBack(slot: nat)
    | SAdd(key: Key, p: GroupPacket, now: int)
    | SArm(key: Key, now: int)
    | SFlush(key: Key, now: int)
    | SDrop(key: Key, reason: Reason, now: int)
    | SForget(now: int)

  ghost predicate Legal(c: Config, s: AssemblerState, t: Step) {
    match t
    case SGiveBack(_) => true
    case SAdd(k, p, _) => k !in s.recent && !Holds(s, k, p.num)
    case SArm(k, _) => k in s.groups && s.groups[k].deadline == 0
    case SFlush(k, _) => k in s.groups && s.groups[k].hasMarker && (c.codec == Avc ==> Complete(s, k))
    case SDrop(k, _, now) => RepairExpired(s, k, now) || TtlExpired(c, s, k, now)
    case SForget(_) => true
  }

  ghost function Apply(c: Config, s: AssemblerState, t: Step): AssemblerState
    requires Legal(c, s, t)
  {
    match t
    case SGiveBack(slot) => GiveBack(s, slot)
    case SAdd(k, p, now) => AddPacket(s, k, p, now)
    case SArm(k, now) => Arm(c, s, k, now)
    case SFlush(k, now) => Flush(s, k, now)
    case SDrop(k, reason, now) => Drop(s, k, reason, now)
    case SForget(now) => Forget(c, s, now)
  }

  /** `r` is what the guarded steps `ts` make of `s`. */
  ghost predicate Runs(c: Config, s: AssemblerState, ts: seq<Step>, r: AssemblerState)
    decreases ts
  {
    if ts == [] then r == s
    else Legal(c, s, ts[0]) && Runs(c, Apply(c, s, ts[0]), ts[1..], r)
  }

  lemma RunsConcat(c: Config, s: AssemblerState, ts: seq<Step>, m: AssemblerState, us: seq<Step>, r: AssemblerState)
    requires Runs(c, s, ts, m) && Runs(c, m, us, r)
    ensures Runs(c, s, ts + us, r)
    decreases ts
  {
    if ts == [] {
      assert ts + us == us;
    } else {
      assert (ts + us)[1..] == ts[1..] + us;
      RunsConcat(c, Apply(c, s, ts[0]), ts[1..], m, us, r);
    }
  }

  lemma RunsCons(c: Config, s: AssemblerState, t: Step, us: seq<Step>, r: AssemblerState)
    requires Legal(c, s, t) && Runs(c, Apply(c, s, t), us, r)
    ensures Runs(c, s, [t] + us, r)
  {
    assert ([t] + us)[1..] == us;
  }

  /** Arming or flushing a group of `ssrc` at time `now`. */
  predicate Local(t: Step, ssrc: U32, now: int) {
    (t.SArm? || t.SFlush?) && t.key.ssrc == ssrc && t.now == now
  }

  ghost predicate AllLocal(ts: seq<Step>, ssrc: U32, now: int) {
    forall i :: 0 <= i < |ts| ==> Local(ts[i], ssrc, now)
  }

  // ---- ordered_keys lists exactly the pending groups of the SSRC ----

  lemma RanksSound(s: AssemblerState, ssrc: U32, order: seq<Key>)
    ensures forall e :: e in Ranks(s, ssrc, order) ==>
              e.key in order && e.key in s.groups && e.key.ssrc == ssrc && e == RankOf(s, e.key)
    ensures forall k :: k in order && k in s.groups && k.ssrc == ssrc ==> RankOf(s, k) in Ranks(s, ssrc, order)
  {
    if order != [] {
      RanksSound(s, ssrc, order[..|order| - 1]);
      assert order == order[..|order| - 1] + [order[|order| - 1]];
    }
  }

  lemma StableInsertElements(s: seq<Rank>, e: Rank)
    ensures multiset(StableInsert(s, e)) == multiset(s) + multiset{e}
  {
    if s != [] && Before(e, s[|s| - 1]) {
      StableInsertElements(s[..|s| - 1], e);
      assert s == s[..|s| - 1] + [s[|s| - 1]];
    }
  }

  lemma StableSortElements(s: seq<Rank>)
    ensures multiset(StableSort(s)) == multiset(s)
  {
    if s != [] {
      StableSortElements(s[..|s| - 1]);
      StableInsertElements(StableSort(s[..|s| - 1]), s[|s| - 1]);
      assert s == s[..|s| - 1] + [s[|s| - 1]];
    }
  }

  ghost predicate DistinctKeys(s: seq<Rank>) {
    forall i, j :: 0 <= i < j < |s| ==> s[i].key != s[j].key
  }

  lemma {:induction false} RanksDistinct(s: AssemblerState, ssrc: U32, order: seq<Key>)
    requires Distinct(order)
    ensures DistinctKeys(Ranks(s, ssrc, order))
  {
    if order != [] {
      var init := order[..|order| - 1];
      RanksDistinct(s, ssrc, init);
      RanksSound(s, ssrc, init);
      assert order[|order| - 1] !in init;
      forall i | 0 <= i < |Ranks(s, ssrc, init)| ensures Ranks(s, ssrc, init)[i].key != order[|order| - 1] {
        assert Ranks(s, ssrc, init)[i] in Ranks(s, ssrc, init);
      }
    }
  }

  lemma {:induction false} StableInsertDistinct(s: seq<Rank>, e: Rank)
    requires DistinctKeys(s) && forall i :: 0 <= i < |s| ==> s[i].key != e.key
    ensures DistinctKeys(StableInsert(s, e))
  {
    if s != [] && Before(e, s[|s| - 1]) {
      var init := s[..|s| - 1];
      StableInsertDistinct(init, e);
      StableInsertElements(init, e);
      SameElements(StableInsert(init, e), init + [e]);
      forall i | 0 <= i < |StableInsert(init, e)| ensures StableInsert(init, e)[i].key != s[|s| - 1].key {
        assert StableInsert(init, e)[i] in init + [e];
      }
    }
  }

  lemma {:induction false} StableSortDistinct(s: seq<Rank>)
    requires DistinctKeys(s)
    ensures DistinctKeys(StableSort(s))
  {
    hide StableInsert;
    if s != [] {
      var init := s[..|s| - 1];
      StableSortDistinct(init);
      StableSortElements(init);
      SameElements(StableSort(init), init);
      forall i | 0 <= i < |StableSort(init)| ensures StableSort(init)[i].key != s[|s| - 1].key {
        assert StableSort(init)[i] in init;
      }
      StableInsertDistinct(StableSort(init), s[|s| - 1]);
    }
  }

  /** Exactly the pending groups of the SSRC, each once. */
  lemma OrderedKeysExact(s: AssemblerState, ssrc: U32)
    ensures forall k :: k in OrderedKeys(s, ssrc) <==> k in s.groupOrder && k in s.groups && k.ssrc == ssrc
    ensures Distinct(s.groupOrder) ==> Distinct(OrderedKeys(s, ssrc))
  {
    if Distinct(s.groupOrder) {
      RanksDistinct(s, ssrc, s.groupOrder);
      StableSortDistinct(Ranks(s, ssrc, s.groupOrder));
    }
    OrderedKeysMembers(s, ssrc);
  }

  lemma OrderedKeysMembers(s: AssemblerState, ssrc: U32)
    ensures forall k :: k in OrderedKeys(s, ssrc) <==> k in s.groupOrder && k in s.groups && k.ssrc == ssrc
  {
    var ranks := Ranks(s, ssrc, s.groupOrder);
    RanksSound(s, ssrc, s.groupOrder);
    StableSortElements(ranks);
    SameElements(StableSort(ranks), ranks);
    var sorted, keys := StableSort(ranks), OrderedKeys(s, ssrc);
    forall k | k in keys
      ensures k in s.groupOrder && k in s.groups && k.ssrc == ssrc
    {
      var i :| 0 <= i < |keys| && keys[i] == k;
      assert sorted[i] in sorted && sorted[i].key == k;
    }
    forall k | k in s.groupOrder && k in s.groups && k.ssrc == ssrc
      ensures k in keys
    {
      assert RankOf(s, k) in sorted;
      var i :| 0 <= i < |sorted| && sorted[i] == RankOf(s, k);
      assert keys[i] == k;
    }
  }

  // ---- decomposition of the operations ----

  lemma ArmUnmarkedRuns(c: Config, s: AssemblerState, keys: seq<Key>, ssrc: U32, now: int) returns (ts: seq<Step>)
    requires forall k :: k in keys ==> k.ssrc == ssrc
    ensures Runs(c, s, ts, ArmUnmarked(c, s, keys, now)) && AllLocal(ts, ssrc, now)
    decreases keys
  {
    hide Complete, OrderedKeys;
    if keys == [] {
      ts := [];
    } else {
      var k := keys[0];
      if k in s.groups && !s.groups[k].hasMarker && s.groups[k].deadline == 0 {
        var us := ArmUnmarkedRuns(c, Arm(c, s, k, now), keys[1..], ssrc, now);
        ts := [SArm(k, now)] + us;
        RunsCons(c, s, SArm(k, now), us, ArmUnmarked(c, s, keys, now));
      } else {
        ts := ArmUnmarkedRuns(c, s, keys[1..], ssrc, now);
      }
    }
  }

  lemma ArmIfIdleRuns(c: Config, s: AssemblerState, k: Key, now: int) returns (ts: seq<Step>)
    requires k in s.groups
    ensures Runs(c, s, ts, ArmIfIdle(c, s, k, now)) && AllLocal(ts, k.ssrc, now)
  {
    if s.groups[k].deadline == 0 {
      ts := [SArm(k, now)];
      RunsCons(c, s, SArm(k, now), [], ArmIfIdle(c, s, k, now));
      assert ts == [SArm(k, now)] + [];
    } else {
      ts := [];
    }
  }

  lemma CompleteIsMarked(s: AssemblerState, k: Key)
    requires k in s.groups && Complete(s, k)
    ensures s.groups[k].hasMarker
  {
  }

  lemma FlushReadyRuns(c: Config, s: AssemblerState, ssrc: U32, now: int) returns (ts: seq<Step>)
    ensures Runs(c, s, ts, FlushReady(c, s, ssrc, now)) && AllLocal(ts, ssrc, now)
    decreases |s.groups|
  {
    hide Complete, OrderedKeys, Flush;
    var keys := OrderedKeys(s, ssrc);
    OrderedKeysExact(s, ssrc);
    if keys == [] || keys[0] !in s.groups {
      ts := [];
    } else {
      var k := keys[0];
      assert k in keys && k.ssrc == ssrc;
      if !Complete(s, k) {
        ts := ArmIfIdleRuns(c, s, k, now);
      } else {
        FlushShrinks(s, k, now);
        CompleteIsMarked(s, k);
        var us := FlushReadyRuns(c, Flush(s, k, now), ssrc, now);
        ts := [SFlush(k, now)] + us;
        RunsCons(c, s, SFlush(k, now), us, FlushReady(c, s, ssrc, now));
      }
    }
  }

  lemma SettleRuns(c: Config, s: AssemblerState, k: Key, now: int) returns (ts: seq<Step>)
    requires k in s.groups
    ensures Runs(c, s, ts, Settle(c, s, k, now)) && AllLocal(ts, k.ssrc, now)
  {
    hide Complete, OrderedKeys, Flush, FlushReady, Arm;
    var keys := OrderedKeys(s, k.ssrc);
    OrderedKeysExact(s, k.ssrc);
    var earlier := keys[..IndexOf(keys, k)];
    var s1 := ArmUnmarked(c, s, earlier, now);
    var us := ArmUnmarkedRuns(c, s, earlier, k.ssrc, now);
    var vs: seq<Step> := [];
    if !Blocked(s1, earlier) {
      if !Complete(s1, k) {
        vs := ArmIfIdleRuns(c, s1, k, now);
      } else {
        CompleteIsMarked(s1, k);
        var ws := FlushReadyRuns(c, Flush(s1, k, now), k.ssrc, now);
        vs := [SFlush(k, now)] + ws;
        RunsCons(c, s1, SFlush(k, now), ws, Settle(c, s, k, now));
      }
    }
    ts := us + vs;
    RunsConcat(c, s, us, s1, vs, Settle(c, s, k, now));
  }

  /** The first step of `queue_packet`: the slot goes back, or the packet joins its group. */
  ghost function Admit(s: AssemblerState, k: Key, p: GroupPacket, now: int): Step {
    if k in s.recent || Holds(s, k, p.num) then SGiveBack(p.slot) else SAdd(k, p, now)
  }

  lemma QueuePacketRuns(c: Config, s: AssemblerState, k: Key, p: GroupPacket, now: int) returns (us: seq<Step>)
    ensures Runs(c, s, [Admit(s, k, p, now)] + us, QueuePacket(c, s, k, p, now)) && AllLocal(us, k.ssrc, now)
  {
    var first := Admit(s, k, p, now);
    var r := QueuePacket(c, s, k, p, now);
    var s1 := Apply(c, s, first);
    us := [];
    if k !in s.recent && s1.groups[k].hasMarker {
      if c.codec == Hevc {
        us := [SFlush(k, now)];
        assert [SFlush(k, now)] + [] == us;
        RunsCons(c, s1, SFlush(k, now), [], r);
      } else {
        us := SettleRuns(c, s1, k, now);
      }
    }
    RunsCons(c, s, first, us, r);
  }

  /** The step touches no group of `quiet`. */
  predicate Elsewhere(t: Step, quiet: U32) {
    match t
    case SGiveBack(_) => true
    case SAdd(k, _, _) => k.ssrc != quiet
    case SArm(k, _) => k.ssrc != quiet
    case SFlush(k, _) => k.ssrc != quiet
    case SDrop(k, _, _) => k.ssrc != quiet
    case SForget(_) => true
  }

  ghost predicate AllElsewhere(ts: seq<Step>, quiet: U32) {
    forall i :: 0 <= i < |ts| ==> Elsewhere(ts[i], quiet)
  }

  ghost predicate AllAt(ts: seq<Step>, now: int) {
    forall i :: 0 <= i < |ts| && !ts[i].SGiveBack? ==> ts[i].now == now
  }

  ghost predicate NoIntake(ts: seq<Step>) {
    forall i :: 0 <= i < |ts| ==> !ts[i].SGiveBack? && !ts[i].SAdd?
  }

  lemma SweepConcat(ts: seq<Step>, us: seq<Step>, now: int, quiet: U32)
    requires AllAt(ts, now) && NoIntake(ts) && AllAt(us, now) && NoIntake(us)
    ensures AllAt(ts + us, now) && NoIntake(ts + us)
    ensures AllElsewhere(ts, quiet) && AllElsewhere(us, quiet) ==> AllElsewhere(ts + us, quiet)
  {
  }

  /** No group of `quiet` has timed out at `now`. */
  ghost predicate NoTimeout(c: Config, s: AssemblerState, quiet: U32, now: int) {
    forall k :: k in s.groups && k.ssrc == quiet ==> !RepairExpired(s, k, now) && !TtlExpired(c, s, k, now)
  }

  lemma DropAllRuns(c: Config, s: AssemblerState, keys: seq<Key>, reason: Reason, quiet: U32, now: int)
    returns (ts: seq<Step>)
    requires forall k :: k in keys && k in s.groups ==> RepairExpired(s, k, now) || TtlExpired(c, s, k, now)
    ensures Runs(c, s, ts, DropAll(s, keys, reason, now)) && AllAt(ts, now) && NoIntake(ts)
    ensures (forall k :: k in keys ==> k.ssrc != quiet) ==> AllElsewhere(ts, quiet)
    decreases keys
  {
    if keys == [] {
      ts := [];
    } else if keys[0] in s.groups {
      var t := SDrop(keys[0], reason, now);
      var us := DropAllRuns(c, Drop(s, keys[0], reason, now), keys[1..], reason, quiet, now);
      ts := [t] + us;
      SweepConcat([t], us, now, quiet);
      RunsCons(c, s, t, us, DropAll(s, keys, reason, now));
    } else {
      ts := DropAllRuns(c, s, keys[1..], reason, quiet, now);
    }
  }

  lemma DropAllKeeps(s: AssemblerState, keys: seq<Key>, reason: Reason, now: int)
    ensures forall k :: k in s.groups && k !in keys ==>
              k in DropAll(s, keys, reason, now).groups && DropAll(s, keys, reason, now).groups[k] == s.groups[k]
    ensures DropAll(s, keys, reason, now).groups.Keys <= s.groups.Keys
    ensures forall k :: k in keys ==> k !in DropAll(s, keys, reason, now).groups
    ensures forall k :: k in DropAll(s, keys, reason, now).groups ==>
              DropAll(s, keys, reason, now).groups[k] == s.groups[k]
    decreases keys
  {
    if keys != [] {
      var s' := if keys[0] in s.groups then Drop(s, keys[0], reason, now) else s;
      DropAllKeeps(s', keys[1..], reason, now);
    }
  }

  lemma FlushReadyAllRuns(c: Config, s: AssemblerState, ssrcs: seq<U32>, quiet: U32, now: int) returns (ts: seq<Step>)
    ensures Runs(c, s, ts, FlushReadyAll(c, s, ssrcs, now)) && AllAt(ts, now) && NoIntake(ts)
    ensures quiet !in ssrcs ==> AllElsewhere(ts, quiet)
    decreases ssrcs
  {
    hide FlushReady;
    if ssrcs == [] {
      ts := [];
    } else {
      var m := FlushReady(c, s, ssrcs[0], now);
      var us := FlushReadyRuns(c, s, ssrcs[0], now);
      var vs := FlushReadyAllRuns(c, m, ssrcs[1..], quiet, now);
      ts := us + vs;
      assert quiet !in ssrcs ==> AllElsewhere(us, quiet);
      SweepConcat(us, vs, now, quiet);
      RunsConcat(c, s, us, m, vs, FlushReadyAll(c, s, ssrcs, now));
    }
  }

  lemma RepairExpiredExact(s: AssemblerState, order: seq<Key>, now: int)
    ensures forall k :: k in RepairExpiredKeys(s, order, now) <==> k in order && RepairExpired(s, k, now)
  {
    if order != [] {
      RepairExpiredExact(s, order[..|order| - 1], now);
      assert order == order[..|order| - 1] + [order[|order| - 1]];
    }
  }

  lemma TtlExpiredExact(c: Config, s: AssemblerState, order: seq<Key>, now: int)
    ensures forall k :: k in TtlExpiredKeys(c, s, order, now) <==> k in order && TtlExpired(c, s, k, now)
  {
    if order != [] {
      TtlExpiredExact(c, s, order[..|order| - 1], now);
      assert order == order[..|order| - 1] + [order[|order| - 1]];
    }
  }

  lemma InsertSsrcElements(s: seq<U32>, x: U32)
    ensures forall y :: y in InsertSsrc(s, x) <==> y == x || y in s
  {
    if s != [] && x > s[0] {
      InsertSsrcElements(s[1..], x);
    }
  }

  lemma SsrcsOfElements(keys: seq<Key>, acc: seq<U32>)
    ensures forall y :: y in SsrcsOf(keys, acc) <==> y in acc || exists k :: k in keys && k.ssrc == y
  {
    if keys != [] {
      InsertSsrcElements(acc, keys[0].ssrc);
      SsrcsOfElements(keys[1..], InsertSsrc(acc, keys[0].ssrc));
      assert keys == [keys[0]] + keys[1..];
      assert forall k :: k in keys <==> k == keys[0] || k in keys[1..];
    }
  }

  /** The two sweeps of `evict_stale`. */
  lemma EvictDrops(c: Config, s: AssemblerState, quiet: U32, now: int) returns (ts: seq<Step>)
    ensures var expired := RepairExpiredKeys(s, s.deadlineOrder, now);
            var s1 := DropAll(s, expired, RepairTimeout, now);
            var ttl := TtlExpiredKeys(c, s1, s1.groupOrder, now);
            && Runs(c, s, ts, DropAll(s1, ttl, MarkerTimeout, now)) && AllAt(ts, now) && NoIntake(ts)
            && (NoTimeout(c, s, quiet, now) ==> AllElsewhere(ts, quiet) && quiet !in SsrcsOf(ttl, SsrcsOf(expired, [])))
  {
    var expired := RepairExpiredKeys(s, s.deadlineOrder, now);
    RepairExpiredExact(s, s.deadlineOrder, now);
    var s1 := DropAll(s, expired, RepairTimeout, now);
    DropAllKeeps(s, expired, RepairTimeout, now);
    var us := DropAllRuns(c, s, expired, RepairTimeout, quiet, now);
    var ttl := TtlExpiredKeys(c, s1, s1.groupOrder, now);
    TtlExpiredExact(c, s1, s1.groupOrder, now);
    var vs := DropAllRuns(c, s1, ttl, MarkerTimeout, quiet, now);
    RunsConcat(c, s, us, s1, vs, DropAll(s1, ttl, MarkerTimeout, now));
    SsrcsOfElements(expired, []);
    SsrcsOfElements(ttl, SsrcsOf(expired, []));
    ts := us + vs;
  }

  lemma EvictStaleRuns(c: Config, s: AssemblerState, quiet: U32, now: int) returns (ts: seq<Step>)
    ensures Runs(c, s, ts, EvictStale(c, s, now)) && AllAt(ts, now) && NoIntake(ts)
    ensures NoTimeout(c, s, quiet, now) ==> AllElsewhere(ts, quiet)
  {
    var expired := RepairExpiredKeys(s, s.deadlineOrder, now);
    var s1 := DropAll(s, expired, RepairTimeout, now);
    var ttl := TtlExpiredKeys(c, s1, s1.groupOrder, now);
    var s2 := DropAll(s1, ttl, MarkerTimeout, now);
    var us := EvictDrops(c, s, quiet, now);
    var ssrcs := SsrcsOf(ttl, SsrcsOf(expired, []));
    var s3 := FlushReadyAll(c, s2, ssrcs, now);
    var vs := FlushReadyAllRuns(c, s2, ssrcs, quiet, now);
    RunsConcat(c, s, us, s2, vs, s3);
    var ws := [SForget(now)];
    assert ws[1..] == [];
    assert Runs(c, s3, ws, EvictStale(c, s, now));
    RunsConcat(c, s, us + vs, s3, ws, EvictStale(c, s, now));
    ts := us + vs + ws;
  }
}
