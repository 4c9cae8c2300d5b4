/**
 What an eviction leaves and puts out, which groups get a repair deadline and which one, and how long a flushed
 key is remembered, over every run of the assembler.
 */
module AssemblerRelease {
  import opened Wire
  import opened CircularSort
  import opened AssemblerModel
  import opened AssemblerSteps
  import opened AssemblerInvariants
  import opened AssemblerRuns
  import opened AssemblerOutput
  import opened AssemblerReordering

  // ---- nothing complete is left at the head ----

  /** No group of the SSRC comes before `k`. */
  ghost predicate Foremost(s: AssemblerState, k: Key) {
    k in s.groups &&
    forall k' :: k' in s.groups && k'.ssrc == k.ssrc ==> !Before(RankOf(s, k'), RankOf(s, k))
  }

  /** The head of the SSRC is incomplete and waits for its repair deadline. */
  ghost predicate HeadWaits(s: AssemblerState, k: Key) {
    Foremost(s, k) && !Complete(s, k) && s.groups[k].deadline != 0
  }

  ghost predicate NonePending(s: AssemblerState, ssrc: U32) {
    forall k :: k in s.groups ==> k.ssrc != ssrc
  }

  ghost predicate Settled(s: AssemblerState, ssrc: U32) {
    NonePending(s, ssrc) || exists k: Key :: k.ssrc == ssrc && HeadWaits(s, k)
  }

  lemma HeadForemost(s: AssemblerState, ssrc: U32)
    requires Valid(s)
    ensures var keys := OrderedKeys(s, ssrc);
      if keys == [] then NonePending(s, ssrc) else keys[0].ssrc == ssrc && Foremost(s, keys[0])
  {
    hide RankOf;
    var ranks, keys := Ranks(s, ssrc, s.groupOrder), OrderedKeys(s, ssrc);
    OrderedKeysMembers(s, ssrc);
    if keys == [] {
      forall k | k in s.groups ensures k.ssrc != ssrc {
        assert k in s.groupOrder && k !in keys;
      }
    } else {
      assert keys[0] in keys;
      RanksSound(s, ssrc, s.groupOrder);
      StableSortHead(ranks);
      StableSortElements(ranks);
      var sorted := StableSort(ranks);
      SameElements(sorted, ranks);
      assert sorted[0] in ranks && sorted[0] == RankOf(s, keys[0]);
      forall k | k in s.groups && k.ssrc == ssrc ensures !Before(RankOf(s, k), RankOf(s, keys[0])) {
        assert k in s.groupOrder && RankOf(s, k) in sorted;
        var i :| 0 <= i < |sorted| && sorted[i] == RankOf(s, k);
      }
    }
  }

  /** Arming moves nothing and completes nothing. */
  lemma ArmKeepsOrder(c: Config, s: AssemblerState, k: Key, now: int, k': Key)
    requires k in s.groups && k' in s.groups
    ensures RankOf(Arm(c, s, k, now), k') == RankOf(s, k') && (Complete(Arm(c, s, k, now), k') <==> Complete(s, k'))
  {
    hide SortedPackets, GapFree;
  }

  lemma ArmedWaits(c: Config, s: AssemblerState, k: Key, now: int)
    requires Foremost(s, k) && !Complete(s, k) && now > 0
    ensures HeadWaits(ArmIfIdle(c, s, k, now), k)
  {
    hide RankOf, Complete;
    if s.groups[k].deadline == 0 {
      var r := Arm(c, s, k, now);
      forall k' | k' in r.groups && k'.ssrc == k.ssrc ensures !Before(RankOf(r, k'), RankOf(r, k)) {
        ArmKeepsOrder(c, s, k, now, k');
        ArmKeepsOrder(c, s, k, now, k);
      }
      ArmKeepsOrder(c, s, k, now, k);
    }
  }

  lemma {:induction false} FlushReadySettles(c: Config, s: AssemblerState, ssrc: U32, now: int)
    requires Valid(s) && now > 0
    ensures Settled(FlushReady(c, s, ssrc, now), ssrc) && Valid(FlushReady(c, s, ssrc, now))
    decreases |s.groups|
  {
    hide Complete, OrderedKeys, Flush, Foremost, Valid, NonePending, HeadWaits;
    var keys := OrderedKeys(s, ssrc);
    HeadForemost(s, ssrc);
    OrderedKeysMembers(s, ssrc);
    if keys != [] {
      var k := keys[0];
      assert k in keys;
      if Complete(s, k) {
        FlushShrinks(s, k, now);
        RetireKeepsValid(s, k, now);
        FlushValid(s, k, now);
        FlushReadySettles(c, Flush(s, k, now), ssrc, now);
      } else {
        ArmedWaits(c, s, k, now);
        if s.groups[k].deadline == 0 {
          StepKeepsValid(c, s, SArm(k, now));
        }
      }
    }
  }

  /** Steps on other SSRCs change nothing of that. */
  lemma ElsewhereSame(c: Config, s: AssemblerState, t: Step, ssrc: U32)
    requires Legal(c, s, t) && Elsewhere(t, ssrc)
    ensures var r := Apply(c, s, t);
      && Anchor(r, ssrc) == Anchor(s, ssrc)
      && forall k: Key :: k.ssrc == ssrc ==>
           (k in r.groups <==> k in s.groups) && (k in s.groups ==> r.groups[k] == s.groups[k])
  {
    hide Complete, SortedPackets, LastMarkerOf;
  }

  lemma SameRank(s: AssemblerState, r: AssemblerState, k: Key)
    requires k in s.groups && k in r.groups && r.groups[k] == s.groups[k] && Anchor(r, k.ssrc) == Anchor(s, k.ssrc)
    ensures RankOf(r, k) == RankOf(s, k) && (Complete(r, k) <==> Complete(s, k))
  {
    hide SortedPackets, GapFree;
  }

  lemma ElsewhereSettled(c: Config, s: AssemblerState, t: Step, ssrc: U32)
    requires Legal(c, s, t) && Elsewhere(t, ssrc) && Settled(s, ssrc)
    ensures Settled(Apply(c, s, t), ssrc)
  {
    hide Legal, Apply, RankOf, Complete;
    var r := Apply(c, s, t);
    ElsewhereSame(c, s, t, ssrc);
    if k: Key :| k.ssrc == ssrc && HeadWaits(s, k) {
      SameRank(s, r, k);
      forall k' | k' in r.groups && k'.ssrc == k.ssrc ensures !Before(RankOf(r, k'), RankOf(r, k)) {
        SameRank(s, r, k');
      }
      assert HeadWaits(r, k);
    }
  }

  lemma {:induction false} RunsElsewhereSettled(c: Config, s: AssemblerState, ts: seq<Step>, r: AssemblerState,
                                                ssrc: U32)
    requires Runs(c, s, ts, r) && AllElsewhere(ts, ssrc) && Settled(s, ssrc)
    ensures Settled(r, ssrc)
    decreases ts
  {
    hide Legal, Apply, Settled;
    if ts != [] {
      ElsewhereSettled(c, s, ts[0], ssrc);
      RunsElsewhereSettled(c, Apply(c, s, ts[0]), ts[1..], r, ssrc);
    }
  }

  lemma {:induction false} FlushReadyAllSettles(c: Config, s: AssemblerState, ssrcs: seq<U32>, ssrc: U32, now: int)
    requires Valid(s) && now > 0 && (ssrc in ssrcs || Settled(s, ssrc))
    ensures Settled(FlushReadyAll(c, s, ssrcs, now), ssrc)
    decreases ssrcs
  {
    hide FlushReady, Settled, Valid;
    if ssrcs != [] {
      var r := FlushReady(c, s, ssrcs[0], now);
      FlushReadySettles(c, s, ssrcs[0], now);
      if ssrcs[0] != ssrc && Settled(s, ssrc) {
        var ts := FlushReadyRuns(c, s, ssrcs[0], now);
        RunsElsewhereSettled(c, s, ts, r, ssrc);
      }
      FlushReadyAllSettles(c, r, ssrcs[1..], ssrc, now);
    }
  }

  // ---- which groups an eviction drops, and what it puts out ----

  /** Past its repair deadline, or without one and older than the TTL. */
  ghost predicate TimedOut(c: Config, g: Group, now: int) {
    if g.deadline != 0 then now >= g.deadline else now - g.arrival > c.groupTtl
  }

  /** What is reported of a group dropped at `now`. */
  ghost function DropRecord(k: Key, g: Group, now: int): Output {
    Dropped(k, AnyMarker(g.pkts), if g.deadline != 0 then RepairTimeout else MarkerTimeout, |g.pkts|, now - g.arrival)
  }

  /** The keys an eviction drops, in this order: deadlines as they were armed, then groups as they arrived. */
  ghost function DropList(c: Config, s: AssemblerState, now: int): seq<Key> {
    var expired := RepairExpiredKeys(s, s.deadlineOrder, now);
    var s1 := DropAll(s, expired, RepairTimeout, now);
    expired + TtlExpiredKeys(c, s1, s1.groupOrder, now)
  }

  /** State after the drops of an eviction. */
  ghost function Dropping(c: Config, s: AssemblerState, now: int): AssemblerState {
    var expired := RepairExpiredKeys(s, s.deadlineOrder, now);
    var s1 := DropAll(s, expired, RepairTimeout, now);
    DropAll(s1, TtlExpiredKeys(c, s1, s1.groupOrder, now), MarkerTimeout, now)
  }

  ghost function Records(groups: map<Key, Group>, keys: seq<Key>, now: int): seq<Output>
    requires forall k :: k in keys ==> k in groups
  {
    seq(|keys|, i requires 0 <= i < |keys| => DropRecord(keys[i], groups[keys[i]], now))
  }

  lemma MarkerFound(p: seq<GroupPacket>)
    ensures LastMarkerOf(p).Some? <==> AnyMarker(p)
  {
    if p != [] && !p[|p| - 1].marker {
      MarkerFound(p[..|p| - 1]);
    }
  }

  lemma SortedMarker(p: seq<GroupPacket>)
    ensures LastMarkerOf(SortedPackets(p)).Some? <==> AnyMarker(p)
  {
    hide SortedPackets, LastMarkerOf;
    var q := SortedPackets(p);
    SameElements(q, p);
    MarkerFound(q);
    if i :| 0 <= i < |p| && p[i].marker {
      assert p[i] in q;
    }
    if i :| 0 <= i < |q| && q[i].marker {
      assert q[i] in p;
    }
  }

  lemma DropLog(s: AssemblerState, k: Key, reason: Reason, now: int)
    requires k in s.groups && reason == if s.groups[k].deadline != 0 then RepairTimeout else MarkerTimeout
    ensures Drop(s, k, reason, now).log == s.log + [DropRecord(k, s.groups[k], now)]
  {
    hide SortedPackets, LastMarkerOf;
    SortedMarker(s.groups[k].pkts);
  }

  /** The last key of the SSRC in the list. */
  ghost function LastOf(keys: seq<Key>, ssrc: U32): Option<Key> {
    if keys == [] then None
    else if keys[|keys| - 1].ssrc == ssrc then Some(keys[|keys| - 1])
    else LastOf(keys[..|keys| - 1], ssrc)
  }

  /** The anchor a dropped group leaves: its last marked number, or none. */
  ghost function AnchorLeft(g: Group): Option<U16> {
    LastMarkerOf(SortedPackets(g.pkts))
  }

  /** That number is the one of the marked packet furthest from any `base` that all packets lie within reach of. */
  lemma AnchorLeftIs(g: Group, base: U16)
    requires ValidGroup(g) && InWindow(g.pkts, base)
    ensures AnchorLeft(g).Some? <==> AnyMarker(g.pkts)
    ensures AnchorLeft(g).Some? ==>
      exists i :: 0 <= i < |g.pkts| && g.pkts[i].marker && g.pkts[i].num == AnchorLeft(g).value
    ensures AnchorLeft(g).Some? ==>
      forall i :: 0 <= i < |g.pkts| && g.pkts[i].marker ==>
        Sub16(g.pkts[i].num, base) <= Sub16(AnchorLeft(g).value, base)
  {
    hide SortedPackets, LastMarkerOf, Sub16;
    var p, q := g.pkts, SortedPackets(g.pkts);
    SortedMarker(p);
    CircularOrder(p, base);
    SameElements(q, p);
    if AnyMarker(p) {
      var j := LastMarkerAt(q);
      assert q[j] in p;
      forall i | 0 <= i < |p| && p[i].marker ensures Sub16(p[i].num, base) <= Sub16(q[j].num, base) {
        assert p[i] in q;
        var h :| 0 <= h < |q| && q[h] == p[i];
        assert h < j ==> Sub16(q[h].num, base) < Sub16(q[j].num, base);
      }
    }
  }

  lemma {:induction false} LastMarkerAt(p: seq<GroupPacket>) returns (j: nat)
    requires LastMarkerOf(p).Some?
    ensures j < |p| && p[j].marker && LastMarkerOf(p) == Some(p[j].num) && forall h :: j < h < |p| ==> !p[h].marker
  {
    if p[|p| - 1].marker {
      j := |p| - 1;
    } else {
      j := LastMarkerAt(p[..|p| - 1]);
    }
  }

  ghost predicate AllFor(s: AssemblerState, keys: seq<Key>, reason: Reason) {
    forall k :: k in keys ==>
      k in s.groups && reason == if s.groups[k].deadline != 0 then RepairTimeout else MarkerTimeout
  }

  lemma DropKeepsFor(s: AssemblerState, keys: seq<Key>, reason: Reason, now: int)
    requires keys != [] && Distinct(keys) && AllFor(s, keys, reason)
    ensures AllFor(Drop(s, keys[0], reason, now), keys[1..], reason)
  {
    hide SortedPackets, LastMarkerOf;
    assert forall k :: k in keys[1..] ==> k in keys && k != keys[0];
  }

  /** Each drop of a list of distinct pending keys is reported, in the order of the list. */
  lemma {:induction false} DropAllLog(s: AssemblerState, keys: seq<Key>, reason: Reason, now: int)
    requires Distinct(keys) && AllFor(s, keys, reason)
    ensures DropAll(s, keys, reason, now).log == s.log + Records(s.groups, keys, now)
    decreases keys
  {
    hide AnyMarker, Drop;
    if keys == [] {
      assert s.log + [] == s.log;
    } else {
      var k, rest := keys[0], keys[1..];
      DropLog(s, k, reason, now);
      DropKeepsFor(s, keys, reason, now);
      DropAllLog(Drop(s, k, reason, now), rest, reason, now);
      RecordsCons(s, keys, reason, now);
    }
  }

  lemma RecordsCons(s: AssemblerState, keys: seq<Key>, reason: Reason, now: int)
    requires keys != [] && Distinct(keys) && AllFor(s, keys, reason)
    requires AllFor(Drop(s, keys[0], reason, now), keys[1..], reason)
    ensures Records(s.groups, keys, now) ==
            [DropRecord(keys[0], s.groups[keys[0]], now)]
            + Records(Drop(s, keys[0], reason, now).groups, keys[1..], now)
  {
    hide AnyMarker, SortedPackets, LastMarkerOf;
  }

  lemma {:induction false} DropAllRecent(s: AssemblerState, keys: seq<Key>, reason: Reason, now: int, k: Key)
    requires Distinct(keys) && AllFor(s, keys, reason)
    ensures var r := DropAll(s, keys, reason, now);
      && (k in r.recent <==> k in s.recent || k in keys)
      && (k in r.recent ==> r.recent[k] == if k in keys then now else s.recent[k])
    decreases keys
  {
    hide SortedPackets, LastMarkerOf;
    if keys != [] {
      DropKeepsFor(s, keys, reason, now);
      DropAllRecent(Drop(s, keys[0], reason, now), keys[1..], reason, now, k);
    }
  }

  ghost function AnchorAfter(s: AssemblerState, keys: seq<Key>, ssrc: U32): Option<U16>
    requires forall k :: k in keys ==> k in s.groups
  {
    LastOfMember(keys, ssrc);
    var l := LastOf(keys, ssrc);
    if l.None? then Anchor(s, ssrc) else AnchorLeft(s.groups[l.value])
  }

  /** The anchor is that of the last group of the SSRC in the list. */
  lemma {:induction false} DropAllAnchor(s: AssemblerState, keys: seq<Key>, reason: Reason, now: int, ssrc: U32)
    requires Distinct(keys) && AllFor(s, keys, reason)
    ensures Anchor(DropAll(s, keys, reason, now), ssrc) == AnchorAfter(s, keys, ssrc)
    decreases keys
  {
    hide SortedPackets, LastMarkerOf;
    if keys != [] {
      var k, rest := keys[0], keys[1..];
      DropKeepsFor(s, keys, reason, now);
      DropAllAnchor(Drop(s, k, reason, now), rest, reason, now, ssrc);
      assert keys == [k] + rest;
      LastOfCons(k, rest, ssrc);
      LastOfMember(rest, ssrc);
    }
  }

  lemma {:induction false} LastOfMember(keys: seq<Key>, ssrc: U32)
    ensures var l := LastOf(keys, ssrc);
      if l.Some? then l.value in keys && l.value.ssrc == ssrc else forall k :: k in keys ==> k.ssrc != ssrc
  {
    if keys != [] {
      LastOfMember(keys[..|keys| - 1], ssrc);
      assert keys == keys[..|keys| - 1] + [keys[|keys| - 1]];
    }
  }

  lemma {:induction false} LastOfConcat(a: seq<Key>, b: seq<Key>, ssrc: U32)
    ensures LastOf(a + b, ssrc) == if LastOf(b, ssrc).Some? then LastOf(b, ssrc) else LastOf(a, ssrc)
  {
    if b == [] {
      assert a + b == a;
    } else {
      assert (a + b)[..|a + b| - 1] == a + b[..|b| - 1];
      LastOfConcat(a, b[..|b| - 1], ssrc);
    }
  }

  lemma LastOfCons(k: Key, rest: seq<Key>, ssrc: U32)
    ensures LastOf([k] + rest, ssrc) ==
            if LastOf(rest, ssrc).Some? then LastOf(rest, ssrc) else if k.ssrc == ssrc then Some(k) else None
  {
    LastOfConcat([k], rest, ssrc);
    assert [k][..0] == [];
  }

  // ---- the sweeps of an eviction ----

  lemma {:induction false} RepairExpiredDistinct(s: AssemblerState, order: seq<Key>, now: int)
    requires Distinct(order)
    ensures Distinct(RepairExpiredKeys(s, order, now))
  {
    hide RepairExpired;
    if order != [] {
      var init, k := order[..|order| - 1], order[|order| - 1];
      RepairExpiredDistinct(s, init, now);
      RepairExpiredExact(s, init, now);
      assert k !in init;
    }
  }

  lemma {:induction false} TtlExpiredDistinct(c: Config, s: AssemblerState, order: seq<Key>, now: int)
    requires Distinct(order)
    ensures Distinct(TtlExpiredKeys(c, s, order, now))
  {
    hide TtlExpired;
    if order != [] {
      var init, k := order[..|order| - 1], order[|order| - 1];
      TtlExpiredDistinct(c, s, init, now);
      TtlExpiredExact(c, s, init, now);
      assert k !in init;
    }
  }

  /** The groups with an expired deadline. */
  lemma FirstSweep(c: Config, s: AssemblerState, now: int)
    requires Valid(s) && now > 0
    ensures var expired := RepairExpiredKeys(s, s.deadlineOrder, now);
      && Distinct(expired) && AllFor(s, expired, RepairTimeout) && Valid(DropAll(s, expired, RepairTimeout, now))
      && forall k :: k in expired <==> k in s.groups && s.groups[k].deadline != 0 && now >= s.groups[k].deadline
  {
    hide DropAll;
    var expired := RepairExpiredKeys(s, s.deadlineOrder, now);
    RepairExpiredExact(s, s.deadlineOrder, now);
    RepairExpiredDistinct(s, s.deadlineOrder, now);
    var ts := DropAllRuns(c, s, expired, RepairTimeout, 0, now);
    RunsKeep(c, s, ts, DropAll(s, expired, RepairTimeout, now), now);
  }

  /** The groups without a deadline that are past the TTL. */
  lemma SecondSweep(c: Config, s: AssemblerState, now: int)
    requires Valid(s) && now > 0
    ensures var ttl := TtlExpiredKeys(c, s, s.groupOrder, now);
      && Distinct(ttl) && AllFor(s, ttl, MarkerTimeout) && Valid(DropAll(s, ttl, MarkerTimeout, now))
      && forall k :: k in ttl <==> k in s.groups && s.groups[k].deadline == 0 && now - s.groups[k].arrival > c.groupTtl
  {
    hide DropAll;
    var ttl := TtlExpiredKeys(c, s, s.groupOrder, now);
    TtlExpiredExact(c, s, s.groupOrder, now);
    TtlExpiredDistinct(c, s, s.groupOrder, now);
    var ts := DropAllRuns(c, s, ttl, MarkerTimeout, 0, now);
    RunsKeep(c, s, ts, DropAll(s, ttl, MarkerTimeout, now), now);
  }

  /** Exactly the groups that have timed out are in the list, each once. */
  lemma DropListIs(c: Config, s: AssemblerState, now: int)
    requires Valid(s) && now > 0
    ensures var keys := DropList(c, s, now);
      Distinct(keys) && forall k :: k in keys <==> k in s.groups && TimedOut(c, s.groups[k], now)
  {
    hide Valid, Drop;
    var expired := RepairExpiredKeys(s, s.deadlineOrder, now);
    var s1 := DropAll(s, expired, RepairTimeout, now);
    var ttl := TtlExpiredKeys(c, s1, s1.groupOrder, now);
    FirstSweep(c, s, now);
    SecondSweep(c, s1, now);
    DropAllKeeps(s, expired, RepairTimeout, now);
    DisjointConcat(expired, ttl);
  }

  lemma DisjointConcat(a: seq<Key>, b: seq<Key>)
    requires Distinct(a) && Distinct(b) && forall k :: k in a ==> k !in b
    ensures Distinct(a + b)
  {
    var ab := a + b;
    forall i, j | 0 <= i < j < |ab| ensures ab[i] != ab[j] {
      if i < |a| && j >= |a| {
        assert a[i] in a && b[j - |a|] in b;
      }
    }
  }

  /** What the two sweeps leave pending. */
  lemma DroppingGroups(c: Config, s: AssemblerState, now: int)
    requires Valid(s) && now > 0
    ensures var r := Dropping(c, s, now);
      && Valid(r) && (forall k :: k in r.groups <==> k in s.groups && !TimedOut(c, s.groups[k], now))
      && (forall k :: k in r.groups ==> r.groups[k] == s.groups[k])
  {
    hide Valid, Drop, Distinct;
    var expired := RepairExpiredKeys(s, s.deadlineOrder, now);
    var s1 := DropAll(s, expired, RepairTimeout, now);
    FirstSweep(c, s, now);
    SecondSweep(c, s1, now);
    DropAllKeeps(s, expired, RepairTimeout, now);
    DropAllKeeps(s1, TtlExpiredKeys(c, s1, s1.groupOrder, now), MarkerTimeout, now);
  }

  /** What they report. */
  lemma DroppingLog(c: Config, s: AssemblerState, now: int)
    requires Valid(s) && now > 0
    ensures (forall k :: k in DropList(c, s, now) ==> k in s.groups)
    ensures Dropping(c, s, now).log == s.log + Records(s.groups, DropList(c, s, now), now)
  {
    hide Valid, DropRecord, DropAll, TimedOut, RepairExpiredKeys, TtlExpiredKeys;
    var expired := RepairExpiredKeys(s, s.deadlineOrder, now);
    var s1 := DropAll(s, expired, RepairTimeout, now);
    var ttl := TtlExpiredKeys(c, s1, s1.groupOrder, now);
    FirstSweep(c, s, now);
    SecondSweep(c, s1, now);
    DropAllKeeps(s, expired, RepairTimeout, now);
    DropAllLog(s, expired, RepairTimeout, now);
    DropAllLog(s1, ttl, MarkerTimeout, now);
    DropListIs(c, s, now);
    assert Records(s.groups, expired + ttl, now) == Records(s.groups, expired, now) + Records(s1.groups, ttl, now);
  }

  /** Which anchor they leave. */
  lemma DroppingAnchor(c: Config, s: AssemblerState, now: int, ssrc: U32)
    requires Valid(s) && now > 0
    ensures (forall k :: k in DropList(c, s, now) ==> k in s.groups)
    ensures Anchor(Dropping(c, s, now), ssrc) == AnchorAfter(s, DropList(c, s, now), ssrc)
  {
    hide Valid, AnchorLeft, DropAll, TimedOut, RepairExpiredKeys, TtlExpiredKeys, LastOf;
    var expired := RepairExpiredKeys(s, s.deadlineOrder, now);
    var s1 := DropAll(s, expired, RepairTimeout, now);
    var ttl := TtlExpiredKeys(c, s1, s1.groupOrder, now);
    FirstSweep(c, s, now);
    SecondSweep(c, s1, now);
    DropAllKeeps(s, expired, RepairTimeout, now);
    DropListIs(c, s, now);
    DropAllAnchor(s, expired, RepairTimeout, now, ssrc);
    DropAllAnchor(s1, ttl, MarkerTimeout, now, ssrc);
    LastOfConcat(expired, ttl, ssrc);
    LastOfMember(ttl, ssrc);
    LastOfMember(expired, ssrc);
  }

  /** What they remember. */
  lemma DroppingRecent(c: Config, s: AssemblerState, now: int, k: Key)
    requires Valid(s) && now > 0
    ensures var r, dropped := Dropping(c, s, now), k in s.groups && TimedOut(c, s.groups[k], now);
      && (k in r.recent <==> k in s.recent || dropped)
      && (k in r.recent ==> r.recent[k] == if dropped then now else s.recent[k])
  {
    hide Valid, DropAll, RepairExpiredKeys, TtlExpiredKeys, Distinct;
    var expired := RepairExpiredKeys(s, s.deadlineOrder, now);
    var s1 := DropAll(s, expired, RepairTimeout, now);
    FirstSweep(c, s, now);
    SecondSweep(c, s1, now);
    DropAllKeeps(s, expired, RepairTimeout, now);
    DropAllRecent(s, expired, RepairTimeout, now, k);
    DropAllRecent(s1, TtlExpiredKeys(c, s1, s1.groupOrder, now), MarkerTimeout, now, k);
  }

  /** Only flushes follow the drops. */
  ghost predicate OnlyFlushes(before: seq<Output>, after: seq<Output>) {
    before <= after && forall i :: |before| <= i < |after| ==> after[i].Flushed?
  }

  lemma {:induction false} FlushReadyFlushes(c: Config, s: AssemblerState, ssrc: U32, now: int)
    ensures OnlyFlushes(s.log, FlushReady(c, s, ssrc, now).log)
    decreases |s.groups|
  {
    hide Complete, OrderedKeys, SortedPackets, LastMarkerOf, GapFree;
    var keys := OrderedKeys(s, ssrc);
    if keys != [] && keys[0] in s.groups && Complete(s, keys[0]) {
      FlushShrinks(s, keys[0], now);
      FlushReadyFlushes(c, Flush(s, keys[0], now), ssrc, now);
    }
  }

  lemma {:induction false} FlushReadyAllFlushes(c: Config, s: AssemblerState, ssrcs: seq<U32>, now: int)
    ensures OnlyFlushes(s.log, FlushReadyAll(c, s, ssrcs, now).log)
    decreases ssrcs
  {
    hide FlushReady;
    if ssrcs != [] {
      FlushReadyFlushes(c, s, ssrcs[0], now);
      FlushReadyAllFlushes(c, FlushReady(c, s, ssrcs[0], now), ssrcs[1..], now);
    }
  }

  ghost function DropSsrcs(c: Config, s: AssemblerState, now: int): seq<U32> {
    var expired := RepairExpiredKeys(s, s.deadlineOrder, now);
    var s1 := DropAll(s, expired, RepairTimeout, now);
    SsrcsOf(TtlExpiredKeys(c, s1, s1.groupOrder, now), SsrcsOf(expired, []))
  }

  lemma EvictIs(c: Config, s: AssemblerState, now: int)
    ensures EvictStale(c, s, now) ==
            Forget(c, FlushReadyAll(c, Dropping(c, s, now), DropSsrcs(c, s, now), now), now)
    ensures forall x :: x in DropSsrcs(c, s, now) <==> exists k :: k in DropList(c, s, now) && k.ssrc == x
  {
    hide DropAll, FlushReadyAll;
    var expired := RepairExpiredKeys(s, s.deadlineOrder, now);
    var s1 := DropAll(s, expired, RepairTimeout, now);
    SsrcsOfElements(expired, []);
    SsrcsOfElements(TtlExpiredKeys(c, s1, s1.groupOrder, now), SsrcsOf(expired, []));
  }

  /**
   An eviction reports exactly the groups that have timed out, each once, with its packet count, age, reason
   and whether it had a marker, and after these it only flushes.
   */
  lemma EvictReports(c: Config, s: AssemblerState, now: int)
    requires Valid(s) && now > 0
    ensures var keys, r := DropList(c, s, now), EvictStale(c, s, now);
      && Distinct(keys) && (forall k :: k in keys <==> k in s.groups && TimedOut(c, s.groups[k], now))
      && OnlyFlushes(s.log + Records(s.groups, keys, now), r.log)
  {
    hide EvictStale, Dropping, DropSsrcs, DropList, FlushReadyAll, Valid, Records, OnlyFlushes, TimedOut;
    DropListIs(c, s, now);
    DroppingLog(c, s, now);
    EvictIs(c, s, now);
    FlushReadyAllFlushes(c, Dropping(c, s, now), DropSsrcs(c, s, now), now);
  }

  /**
   After an eviction every SSRC that lost a group in it has no pending group, or a first one that is
   incomplete and waits for an armed deadline: whatever was complete behind the dropped groups is flushed.
   */
  lemma EvictSettles(c: Config, s: AssemblerState, now: int, k: Key)
    requires Valid(s) && now > 0 && k in s.groups && TimedOut(c, s.groups[k], now)
    ensures Settled(EvictStale(c, s, now), k.ssrc)
  {
    hide EvictStale, Dropping, DropSsrcs, DropList, FlushReadyAll, Valid, Settled, TimedOut;
    DropListIs(c, s, now);
    DroppingGroups(c, s, now);
    EvictIs(c, s, now);
    var r := FlushReadyAll(c, Dropping(c, s, now), DropSsrcs(c, s, now), now);
    FlushReadyAllSettles(c, Dropping(c, s, now), DropSsrcs(c, s, now), k.ssrc, now);
    ElsewhereSettled(c, r, SForget(now), k.ssrc);
  }
}
