/**
 What an eviction does to a stream one of whose units has timed out. The units up to it are dropped, and the same
 eviction flushes the whole units directly behind it, in sending order, if the dropped unit had its marker;
 without it the anchor is lost, and the exact condition is that of a new SSRC.
 */
module AssemblerTimeout {
  import opened Wire
  import opened CircularSort
  import opened AssemblerModel
  import opened AssemblerSteps
  import opened AssemblerInvariants
  import opened AssemblerRuns
  import opened AssemblerOutput
  import opened AssemblerReordering
  import opened AssemblerFresh
  import opened AssemblerRelease

  // ---- the rest of a stream ----

  /** Unit `v` and the units behind it, as a stream of their own. */
  ghost function Tail(st: Stream, v: nat): Stream
    requires WellFormed(st) && v <= |st.stamps|
  {
    Stream(st.ssrc, Num(st, st.starts[v]), TailStarts(st, v), st.stamps[v..])
  }

  ghost function TailStarts(st: Stream, v: nat): (r: seq<nat>)
    requires WellFormed(st) && v <= |st.stamps|
    ensures |r| == |st.starts| - v && forall i :: 0 <= i < |r| ==> st.starts[v] + r[i] == st.starts[v + i]
  {
    seq(|st.starts| - v, i requires 0 <= i < |st.starts| - v =>
      StartsGrow(st, v, v + i);
      st.starts[v + i] - st.starts[v])
  }

  lemma TailForm(st: Stream, v: nat)
    requires WellFormed(st) && v <= |st.stamps|
    ensures WellFormed(Tail(st, v))
  {
    var tail := Tail(st, v);
    forall i | 0 <= i < |tail.stamps| ensures UnitSized(tail, i) {
      assert UnitSized(st, v + i);
    }
  }

  lemma TailUnit(st: Stream, v: nat, i: nat)
    requires WellFormed(st) && v + i < |st.stamps|
    ensures UnitKey(Tail(st, v), i) == UnitKey(st, v + i) && Len(Tail(st, v), i) == Len(st, v + i)
    ensures forall num: U16 :: Off(Tail(st, v), i, num) == Off(st, v + i, num)
  {
    hide Sub16;
    var tail := Tail(st, v);
    TailNum(st, v, tail.starts[i]);
  }

  lemma TailNum(st: Stream, v: nat, d: nat)
    requires WellFormed(st) && v <= |st.stamps|
    ensures Num(Tail(st, v), d) == Num(st, st.starts[v] + d)
  {
    hide Tail, UnitSized, Distinct;
    assert Tail(st, v).base == Num(st, st.starts[v]) by { TailBase(st, v); }
  }

  lemma TailBase(st: Stream, v: nat)
    requires WellFormed(st) && v <= |st.stamps|
    ensures Tail(st, v).base == Num(st, st.starts[v]) && Tail(st, v).ssrc == st.ssrc
  {
  }

  /** The arrived packets of the tail, counted from its start. */
  ghost function Beyond(st: Stream, v: nat, arrived: set<nat>): set<nat>
    requires v < |st.starts|
  {
    Shift(arrived, st.starts[v], 0x1_0000)
  }

  lemma BeyondIs(st: Stream, v: nat, arrived: set<nat>, i: nat, d: nat)
    requires WellFormed(st) && v + i < |st.stamps| && d < Len(st, v + i)
    requires forall j :: j in arrived ==> j < st.starts[v] + 0x1_0000
    ensures Tail(st, v).starts[i] + d in Beyond(st, v, arrived) <==> st.starts[v + i] + d in arrived
  {
  }

  lemma TailHolding(st: Stream, v: nat, arrived: set<nat>, i: nat, p: seq<GroupPacket>)
    requires WellFormed(st) && v + i < |st.stamps| && Holding(st, v + i, arrived, p)
    requires forall j :: j in arrived ==> j < st.starts[v] + 0x1_0000
    ensures Holding(Tail(st, v), i, Beyond(st, v, arrived), p)
  {
    hide Num, Sub16, Beyond, UnitSized, Distinct;
    var tail, part := Tail(st, v), Beyond(st, v, arrived);
    TailUnit(st, v, i);
    TailNum(st, v, tail.starts[i]);
    forall u | 0 <= u < |p| ensures Belongs(tail, i, part, p[u]) {
      HoldingAt(st, v + i, arrived, p, u);
      BeyondIs(st, v, arrived, i, Off(st, v + i, p[u].num));
    }
    forall d | 0 <= d < Len(tail, i) && tail.starts[i] + d in part ensures HasOffset(p, Num(tail, tail.starts[i]), d) {
      BeyondIs(st, v, arrived, i, d);
      assert HasOffset(p, Num(st, st.starts[v + i]), d);
    }
  }

  lemma TailNone(st: Stream, v: nat, arrived: set<nat>, i: nat)
    requires WellFormed(st) && v + i < |st.stamps| && NoneArrived(st, v + i, arrived)
    requires forall j :: j in arrived ==> j < st.starts[v] + 0x1_0000
    ensures NoneArrived(Tail(st, v), i, Beyond(st, v, arrived))
  {
    var tail := Tail(st, v);
    forall j | tail.starts[i] <= j < tail.starts[i + 1] ensures j !in Beyond(st, v, arrived) {
      BeyondIs(st, v, arrived, i, j - tail.starts[i]);
    }
  }

  lemma TailTracked(st: Stream, v: nat, arrived: set<nat>, i: nat, s: AssemblerState)
    requires WellFormed(st) && v + i < |st.stamps| && Tracked(st, s, v + i, arrived)
    requires forall j :: j in arrived ==> j < st.starts[v] + 0x1_0000
    ensures |Tail(st, v).starts| > i + 1 && Tracked(Tail(st, v), s, i, Beyond(st, v, arrived))
  {
    hide Holding, NoneArrived, Beyond;
    TailUnit(st, v, i);
    var k := UnitKey(st, v + i);
    if k in s.groups {
      TailHolding(st, v, arrived, i, s.groups[k].pkts);
    } else {
      TailNone(st, v, arrived, i);
    }
  }

  // ---- which units are dropped ----

  /** Exactly the pending units up to `v` have timed out, and `v` is the last one dropped. */
  ghost predicate DropsUpTo(c: Config, st: Stream, s: AssemblerState, v: nat, now: int) {
    && v < |st.stamps| && UnitKey(st, v) in s.groups
    && (forall i :: 0 <= i < |st.stamps| && UnitKey(st, i) in s.groups ==>
          (TimedOut(c, s.groups[UnitKey(st, i)], now) <==> i <= v))
    && LastOf(DropList(c, s, now), st.ssrc) == Some(UnitKey(st, v))
  }

  lemma AnchorOfUnit(st: Stream, i: nat, arrived: set<nat>, g: Group)
    requires WellFormed(st) && i < |st.stamps| && ValidGroup(g) && Holding(st, i, arrived, g.pkts)
    ensures st.starts[i + 1] > 0
    ensures AnchorLeft(g) == if st.starts[i + 1] - 1 in arrived then Some(Num(st, st.starts[i + 1] - 1)) else None
  {
    hide SortedPackets, LastMarkerOf, Num, Sub16;
    assert UnitSized(st, i);
    SortedMarker(g.pkts);
    var p, last := SortedPackets(g.pkts), st.starts[i + 1] - 1;
    SameElements(p, g.pkts);
    if AnyMarker(g.pkts) {
      var j := LastMarkerAt(p);
      assert p[j] in g.pkts;
      var u :| 0 <= u < |g.pkts| && g.pkts[u] == p[j];
      HoldingAt(st, i, arrived, g.pkts, u);
      NumByOffset(st, st.starts[i], p[j].num, Off(st, i, p[j].num));
    }
    if last in arrived {
      assert st.starts[i] + (Len(st, i) - 1) in arrived;
      assert HasOffset(g.pkts, Num(st, st.starts[i]), Len(st, i) - 1);
      var u :| 0 <= u < |g.pkts| && Sub16(g.pkts[u].num, Num(st, st.starts[i])) == Len(st, i) - 1;
      HoldingAt(st, i, arrived, g.pkts, u);
      assert g.pkts[u].marker;
    }
  }

  /** After the drops the stream goes on behind unit `v`. */
  lemma DroppedTracks(c: Config, st: Stream, s: AssemblerState, m: nat, arrived: set<nat>, v: nat, now: int)
    requires Valid(s) && Tracks(st, s, m, arrived) && now > 0 && DropsUpTo(c, st, s, v, now)
    ensures m <= v
    ensures forall i :: v < i < |st.stamps| ==> Tracked(st, Dropping(c, s, now), i, arrived)
    ensures forall k :: k in Dropping(c, s, now).groups && k.ssrc == st.ssrc ==> IsUnit(st, v + 1, k)
  {
    hide Dropping, Holding, NoneArrived, TimedOut, DropList, Valid, LastOf;
    var r := Dropping(c, s, now);
    DroppingGroups(c, s, now);
    assert m <= v by { PendingUnit(st, s, m, arrived, v); }
    forall i | v < i < |st.stamps| ensures Tracked(st, r, i, arrived) {
      assert Tracked(st, s, i, arrived);
      DroppingRecent(c, s, now, UnitKey(st, i));
    }
    forall k | k in r.groups && k.ssrc == st.ssrc ensures IsUnit(st, v + 1, k) {
      assert IsUnit(st, m, k);
      var i :| m <= i < |st.stamps| && k == UnitKey(st, i);
      assert v < i;
    }
  }

  lemma PendingUnit(st: Stream, s: AssemblerState, m: nat, arrived: set<nat>, v: nat)
    requires Tracks(st, s, m, arrived) && v < |st.stamps| && UnitKey(st, v) in s.groups
    ensures m <= v
  {
    assert IsUnit(st, m, UnitKey(st, v));
    var i :| m <= i < |st.stamps| && UnitKey(st, v) == UnitKey(st, i);
    UnitKeys(st, v, i);
  }

  lemma DroppedAnchor(c: Config, st: Stream, s: AssemblerState, m: nat, arrived: set<nat>, v: nat, now: int)
    requires Valid(s) && Tracks(st, s, m, arrived) && now > 0 && DropsUpTo(c, st, s, v, now)
    ensures st.starts[v + 1] > 0
    ensures Anchor(Dropping(c, s, now), st.ssrc) ==
            if st.starts[v + 1] - 1 in arrived then Some(Num(st, st.starts[v + 1] - 1)) else None
  {
    hide Dropping, Holding, DropList, LastOf, AnchorLeft, TimedOut, Anchor;
    DroppingAnchor(c, s, now, st.ssrc);
    PendingUnit(st, s, m, arrived, v);
    assert Tracked(st, s, v, arrived) && ValidGroup(s.groups[UnitKey(st, v)]);
    AnchorOfUnit(st, v, arrived, s.groups[UnitKey(st, v)]);
  }

  /** All arrived packets lie within a full circle of the tail. */
  lemma BoundBehind(st: Stream, s: AssemblerState, m: nat, arrived: set<nat>, v: nat)
    requires Tracks(st, s, m, arrived) && m <= v < |st.starts|
    ensures forall j :: j in arrived ==> j < st.starts[v] + 0x1_0000
  {
    StartsGrow(st, m, v);
  }

  /** Everything the tail needs but the anchor. */
  ghost predicate Follows(st: Stream, s: AssemblerState, v: nat, arrived: set<nat>) {
    && WellFormed(st) && v <= |st.stamps|
    && (forall i :: v <= i < |st.stamps| ==> Tracked(st, s, i, arrived))
    && (forall k :: k in s.groups && k.ssrc == st.ssrc ==> IsUnit(st, v, k))
    && (forall j :: j in arrived ==> j < st.starts[v] + 0x1_0000)
  }

  lemma FollowsTail(st: Stream, s: AssemblerState, v: nat, arrived: set<nat>)
    requires Valid(s) && Follows(st, s, v, arrived)
    requires Anchor(s, st.ssrc).Some? && Add16(Anchor(s, st.ssrc).value, 1) == Num(st, st.starts[v])
    ensures Synced(Tail(st, v), s, SsrcLog(s.log, st.ssrc), 0, Beyond(st, v, arrived))
  {
    hide Tracked, Beyond, Num, SsrcLog, Valid, Add16;
    var tail, part := Tail(st, v), Beyond(st, v, arrived);
    TailForm(st, v);
    TailNum(st, v, 0);
    assert tail.starts[0] == 0;
    forall i | 0 <= i < |tail.stamps| ensures Tracked(tail, s, i, part) {
      TailTracked(st, v, arrived, i, s);
    }
    forall k | k in s.groups && k.ssrc == tail.ssrc ensures IsUnit(tail, 0, k) {
      assert IsUnit(st, v, k);
      var i :| v <= i < |st.stamps| && k == UnitKey(st, i);
      TailUnit(st, v, i - v);
      assert k == UnitKey(tail, i - v);
    }
    assert forall j :: j in part ==> j < 0x1_0000 by { BeyondBound(st, v, arrived); }
    EmptyLog(tail, s, SsrcLog(s.log, st.ssrc));
  }

  lemma BeyondBound(st: Stream, v: nat, arrived: set<nat>)
    requires v < |st.starts|
    ensures forall j :: j in Beyond(st, v, arrived) ==> j < 0x1_0000
  {
  }

  // ---- with an anchor: the flushes go on behind the dropped unit ----

  lemma {:induction false} FlushAllSynced(c: Config, st: Stream, s: AssemblerState, before: seq<Output>, m: nat,
                                          arrived: set<nat>, ssrcs: seq<U32>, now: int)
    returns (m': nat)
    requires Synced(st, s, before, m, arrived) && now > 0 && (st.ssrc in ssrcs || Waiting(st, m, arrived))
    ensures Synced(st, FlushReadyAll(c, s, ssrcs, now), before, m', arrived) && Waiting(st, m', arrived)
    decreases ssrcs
  {
    hide FlushReady, LogIs, Tracks, Valid;
    TracksForm(st, s, m, arrived);
    m' := m;
    if ssrcs != [] {
      var r := FlushReady(c, s, ssrcs[0], now);
      if ssrcs[0] == st.ssrc {
        m' := FlushReadySynced(c, st, s, before, m, arrived, now);
      } else {
        var ts := FlushReadyRuns(c, s, ssrcs[0], now);
        ElsewhereSynced(c, st, s, before, m, arrived, ts, r, now);
      }
      m' := FlushAllSynced(c, st, r, before, m', arrived, ssrcs[1..], now);
    }
  }

  // ---- without one: the first group to have arrived goes first ----

  lemma {:induction false} ElsewhereEntered(c: Config, st: Stream, s: AssemblerState, before: seq<Output>, u: nat,
                                            arrived: set<nat>, ts: seq<Step>, r: AssemblerState, now: int)
    requires Entered(st, s, before, u, arrived, now) && now > 0
    requires Runs(c, s, ts, r) && AllAt(ts, now) && AllElsewhere(ts, st.ssrc)
    ensures Entered(st, r, before, u, arrived, now)
    decreases ts
  {
    hide Apply, Legal, Synced, Leading, Anchored;
    if ts != [] {
      var t := ts[0];
      StepSynced(c, st, s, before, arrived, t, now);
      AnchoredStep(c, st, s, t);
      StepLeading(c, s, t, UnitKey(st, u));
      ElsewhereEntered(c, st, Apply(c, s, t), before, u, arrived, ts[1..], r, now);
    }
  }

  /** `flush_ready` flushes the first group to have arrived if what there is of it is a suffix of the unit. */
  lemma FlushEntered(c: Config, st: Stream, s: AssemblerState, before: seq<Output>, u: nat, arrived: set<nat>, now: int)
    requires Entered(st, s, before, u, arrived, now) && now > 0
    ensures WellFormed(st) && u < |st.stamps| && UnitKey(st, u) in s.groups
    ensures var k, r := UnitKey(st, u), FlushReady(c, s, st.ssrc, now);
      if Suffix(st, u, arrived) then r == FlushReady(c, Flush(s, k, now), st.ssrc, now)
      else Entered(st, r, before, u, arrived, now)
  {
    hide Complete, OrderedKeys, Synced, Flush, Leading, Suffix, Tracked, Valid;
    var k := UnitKey(st, u);
    EnteredTracks(st, s, before, u, arrived, now);
    SuffixIffComplete(st, s, before, u, arrived, now);
    LeadingIsFirst(s, k);
    if !Complete(s, k) && s.groups[k].deadline == 0 {
      ArmEntered(c, st, s, before, u, arrived, k, now);
    }
  }

  lemma {:induction false} FlushAllIdle(c: Config, st: Stream, s: AssemblerState, before: seq<Output>, u: nat,
                                        arrived: set<nat>, ssrcs: seq<U32>, now: int)
    requires Entered(st, s, before, u, arrived, now) && now > 0 && WellFormed(st) && !Suffix(st, u, arrived)
    ensures Entered(st, FlushReadyAll(c, s, ssrcs, now), before, u, arrived, now)
    decreases ssrcs
  {
    hide FlushReady, Entered, Suffix, Flush;
    if ssrcs != [] {
      var r := FlushReady(c, s, ssrcs[0], now);
      if ssrcs[0] == st.ssrc {
        FlushEntered(c, st, s, before, u, arrived, now);
      } else {
        var ts := FlushReadyRuns(c, s, ssrcs[0], now);
        ElsewhereEntered(c, st, s, before, u, arrived, ts, r, now);
      }
      FlushAllIdle(c, st, r, before, u, arrived, ssrcs[1..], now);
    }
  }

  /** The first group goes out as it is, and all that follows it behind it. */
  lemma {:induction false} FlushAllStarts(c: Config, st: Stream, s: AssemblerState, before: seq<Output>, u: nat,
                                          arrived: set<nat>, ssrcs: seq<U32>, now: int)
    returns (a: nat)
    requires Entered(st, s, before, u, arrived, now) && now > 0 && WellFormed(st) && Suffix(st, u, arrived)
    requires st.ssrc in ssrcs
    ensures SuffixFrom(st, u, arrived, a) && StartsWith(st, FlushReadyAll(c, s, ssrcs, now), before, u, a)
    ensures u == 0 && Full(st, 0, arrived) ==> TransparentAt(st, FlushReadyAll(c, s, ssrcs, now), before, arrived)
    decreases ssrcs
  {
    hide FlushReady, Entered, Suffix, Flush, SuffixFrom, StartsWith, TransparentAt, Full;
    var r := FlushReady(c, s, ssrcs[0], now);
    EnteredTracks(st, s, before, u, arrived, now);
    if ssrcs[0] == st.ssrc {
      FlushEntered(c, st, s, before, u, arrived, now);
      a := FirstIsSuffix(c, st, s, before, u, arrived, now);
      SuffixInUnit(st, u, arrived, a);
      FlushReadyAllFlushes(c, r, ssrcs[1..], now);
      StartsGrown(st, r, FlushReadyAll(c, r, ssrcs[1..], now), before, u, a);
      if u == 0 && Full(st, 0, arrived) {
        var m := FirstIsWhole(c, st, s, before, arrived, now);
        var m' := FlushAllSynced(c, st, r, before, m, arrived, ssrcs[1..], now);
        SyncedTransparent(st, FlushReadyAll(c, r, ssrcs[1..], now), before, m', arrived);
      }
    } else {
      var ts := FlushReadyRuns(c, s, ssrcs[0], now);
      ElsewhereEntered(c, st, s, before, u, arrived, ts, r, now);
      a := FlushAllStarts(c, st, r, before, u, arrived, ssrcs[1..], now);
    }
  }

  lemma StartsGrown(st: Stream, s: AssemblerState, r: AssemblerState, before: seq<Output>, u: nat, a: nat)
    requires WellFormed(st) && u < |st.stamps| && a <= st.starts[u + 1]
    requires StartsWith(st, s, before, u, a) && s.log <= r.log
    ensures StartsWith(st, r, before, u, a)
  {
    hide SsrcLog, Delivered;
    SsrcLogGrows(s.log, r.log, st.ssrc);
  }

  // ---- which group is the first ----

  ghost predicate Precedes(order: seq<Key>, k: Key, k': Key) {
    exists i, j :: 0 <= i < j < |order| && order[i] == k && order[j] == k'
  }

  /** Groups are listed as they arrived, none after `now`. */
  ghost predicate ArrivalOrder(s: AssemblerState, now: int) {
    && (forall k, k' :: k in s.groups && k' in s.groups && Precedes(s.groupOrder, k, k') ==>
          s.groups[k].arrival <= s.groups[k'].arrival)
    && forall k :: k in s.groups ==> s.groups[k].arrival <= now
  }

  lemma {:induction false} RemovePlace(order: seq<Key>, x: Key, i: nat, j: nat) returns (i': nat, j': nat)
    requires i < j < |order| && order[i] != x && order[j] != x
    ensures i' < j' < |Remove(order, x)| && Remove(order, x)[i'] == order[i] && Remove(order, x)[j'] == order[j]
  {
    var rest := Remove(order[1..], x);
    if i == 0 {
      assert order[j] in order[1..];
      assert order[j] in rest;
      var h :| 0 <= h < |rest| && rest[h] == order[j];
      i', j' := 0, h + 1;
    } else {
      i', j' := RemovePlace(order[1..], x, i - 1, j - 1);
      if order[0] != x {
        i', j' := i' + 1, j' + 1;
      }
    }
  }

  lemma RemovePrecedes(order: seq<Key>, x: Key, k: Key, k': Key)
    requires Precedes(order, k, k') && k != x && k' != x
    ensures Precedes(Remove(order, x), k, k')
  {
    var i, j :| 0 <= i < j < |order| && order[i] == k && order[j] == k';
    var i', j' := RemovePlace(order, x, i, j);
  }

  lemma {:induction false} DropAllPrecedes(s: AssemblerState, keys: seq<Key>, reason: Reason, now: int, k: Key, k': Key)
    requires Precedes(s.groupOrder, k, k') && k !in keys && k' !in keys
    ensures Precedes(DropAll(s, keys, reason, now).groupOrder, k, k')
    decreases keys
  {
    hide Precedes, SortedPackets, LastMarkerOf;
    if keys != [] {
      var s' := if keys[0] in s.groups then Drop(s, keys[0], reason, now) else s;
      if keys[0] in s.groups {
        RemovePrecedes(s.groupOrder, keys[0], k, k');
      }
      DropAllPrecedes(s', keys[1..], reason, now, k, k');
    }
  }

  lemma DroppingPrecedes(c: Config, s: AssemblerState, now: int, k: Key, k': Key)
    requires Valid(s) && now > 0 && Precedes(s.groupOrder, k, k')
    requires k in s.groups && !TimedOut(c, s.groups[k], now) && k' in s.groups && !TimedOut(c, s.groups[k'], now)
    ensures Precedes(Dropping(c, s, now).groupOrder, k, k')
  {
    hide Precedes, DropAll, Valid, RepairExpiredKeys, TtlExpiredKeys, Distinct;
    var expired := RepairExpiredKeys(s, s.deadlineOrder, now);
    var s1 := DropAll(s, expired, RepairTimeout, now);
    FirstSweep(c, s, now);
    SecondSweep(c, s1, now);
    DropAllKeeps(s, expired, RepairTimeout, now);
    DropAllPrecedes(s, expired, RepairTimeout, now, k, k');
    DropAllPrecedes(s1, TtlExpiredKeys(c, s1, s1.groupOrder, now), MarkerTimeout, now, k, k');
  }

  lemma {:induction false} LeadsFrom(order: seq<Key>, k: Key)
    requires Distinct(order) && k in order
    requires forall k' :: k' in order && k'.ssrc == k.ssrc && k' != k ==> Precedes(order, k, k')
    ensures Leads(order, k)
  {
    if order[0] != k {
      var rest := order[1..];
      forall k' | k' in rest && k'.ssrc == k.ssrc && k' != k ensures Precedes(rest, k, k') {
        assert k' in order;
        var i, j :| 0 <= i < j < |order| && order[i] == k && order[j] == k';
        assert rest[i - 1] == k && rest[j - 1] == k';
      }
      LeadsFrom(rest, k);
    }
  }

  /** `first` is the unit behind `v` that the first of the pending packets behind it belongs to, counted from there. */
  ghost predicate FirstBehind(st: Stream, s: AssemblerState, v: nat, first: Option<nat>) {
    match first
    case None => forall i :: v < i < |st.stamps| ==> UnitKey(st, i) !in s.groups
    case Some(u) =>
      && v + 1 + u < |st.stamps| && UnitKey(st, v + 1 + u) in s.groups
      && forall i :: v < i < |st.stamps| && i != v + 1 + u && UnitKey(st, i) in s.groups ==>
           Precedes(s.groupOrder, UnitKey(st, v + 1 + u), UnitKey(st, i))
  }

  lemma DroppedLeads(c: Config, st: Stream, s: AssemblerState, m: nat, arrived: set<nat>, v: nat, u: nat, now: int)
    requires Valid(s) && Tracks(st, s, m, arrived) && now > 0 && DropsUpTo(c, st, s, v, now)
    requires ArrivalOrder(s, now) && FirstBehind(st, s, v, Some(u))
    ensures Leading(Dropping(c, s, now), UnitKey(st, v + 1 + u))
    ensures Dropping(c, s, now).groups[UnitKey(st, v + 1 + u)].arrival <= now
  {
    hide Dropping, Tracked, TimedOut, DropList, LastOf, Leads, Precedes, ValidGroup, WellFormed;
    var r, k := Dropping(c, s, now), UnitKey(st, v + 1 + u);
    DroppingGroups(c, s, now);
    DroppedTracks(c, st, s, m, arrived, v, now);
    forall k' | k' in r.groups && k'.ssrc == k.ssrc && k' != k
      ensures Precedes(r.groupOrder, k, k') && s.groups[k].arrival <= s.groups[k'].arrival
    {
      assert IsUnit(st, v + 1, k');
      var i :| v + 1 <= i < |st.stamps| && k' == UnitKey(st, i);
      assert Precedes(s.groupOrder, k, k');
      DroppingPrecedes(c, s, now, k, k');
    }
    LeadsFrom(r.groupOrder, k);
  }

  // ---- the theorem ----

  /** What the SSRC has put out before the flushes: its log, and the reports of the dropped units. */
  ghost function WithDrops(c: Config, st: Stream, s: AssemblerState, now: int): seq<Output>
    requires forall k :: k in DropList(c, s, now) ==> k in s.groups
  {
    SsrcLog(s.log + Records(s.groups, DropList(c, s, now), now), st.ssrc)
  }

  /** A suffix of the first unit behind, or all of the next one, has arrived only if these are one and it is whole. */
  ghost predicate OpensBehind(tail: Stream, first: Option<nat>, part: set<nat>) {
    !Unready(tail, first, part) || FirstFull(tail, part) ==> first == Some(0) && FirstFull(tail, part)
  }

  lemma SameLogTransparent(st: Stream, s: AssemblerState, r: AssemblerState, before: seq<Output>, arrived: set<nat>)
    requires WellFormed(st) && r.log == s.log
    ensures TransparentAt(st, s, before, arrived) <==> TransparentAt(st, r, before, arrived)
  {
    hide UnitsInOrder, SsrcLog, Full, UnitSized;
    assert forall m: nat :: LogIs(st, s, before, m) <==> LogIs(st, r, before, m);
  }

  lemma QuietTransparent(st: Stream, s: AssemblerState, before: seq<Output>, arrived: set<nat>)
    requires WellFormed(st) && SsrcLog(s.log, st.ssrc) == before
    ensures TransparentAt(st, s, before, arrived) <==> !FirstFull(st, arrived)
  {
    hide SsrcLog, Full, UnitSized, UnitsInOrder;
    EmptyLog(st, s, before);
  }

  /** The dropped unit had its marker: the stream goes on. */
  lemma MarkedReleases(c: Config, st: Stream, s: AssemblerState, m: nat, arrived: set<nat>, v: nat, now: int)
    requires Valid(s) && Tracks(st, s, m, arrived) && now > 0 && DropsUpTo(c, st, s, v, now)
    requires st.starts[v + 1] > 0 && st.starts[v + 1] - 1 in arrived
    ensures (forall k :: k in DropList(c, s, now) ==> k in s.groups) && WellFormed(Tail(st, v + 1))
    ensures TransparentAt(Tail(st, v + 1), EvictStale(c, s, now), WithDrops(c, st, s, now), Beyond(st, v + 1, arrived))
  {
    hide Dropping, DropSsrcs, DropList, LastOf, TimedOut, FlushReadyAll, EvictStale, Valid, Tracks, Records, SsrcLog,
      Tail, Beyond, Synced, Waiting, TransparentAt;
    TracksForm(st, s, m, arrived);
    var s2, tail, part := Dropping(c, s, now), Tail(st, v + 1), Beyond(st, v + 1, arrived);
    DroppingLog(c, s, now);
    DroppedFollows(c, st, s, m, arrived, v, now);
    DroppedAnchor(c, st, s, m, arrived, v, now);
    NextNum(st, st.starts[v + 1] - 1);
    FollowsTail(st, s2, v + 1, arrived);
    EvictIs(c, s, now);
    SsrcDropped(c, st, s, v, now);
    TailBase(st, v + 1);
    var m' := FlushAllSynced(c, tail, s2, SsrcLog(s2.log, st.ssrc), 0, part, DropSsrcs(c, s, now), now);
    var r := FlushReadyAll(c, s2, DropSsrcs(c, s, now), now);
    SyncedTransparent(tail, r, SsrcLog(s2.log, st.ssrc), m', part);
    SameLogTransparent(tail, r, EvictStale(c, s, now), SsrcLog(s2.log, st.ssrc), part);
  }

  lemma SsrcDropped(c: Config, st: Stream, s: AssemblerState, v: nat, now: int)
    requires DropsUpTo(c, st, s, v, now)
    ensures st.ssrc in DropSsrcs(c, s, now)
  {
    hide DropSsrcs, DropList, LastOf, TimedOut;
    LastOfMember(DropList(c, s, now), st.ssrc);
    EvictIs(c, s, now);
  }

  lemma DroppedFollows(c: Config, st: Stream, s: AssemblerState, m: nat, arrived: set<nat>, v: nat, now: int)
    requires Valid(s) && Tracks(st, s, m, arrived) && now > 0 && DropsUpTo(c, st, s, v, now)
    ensures Valid(Dropping(c, s, now)) && Follows(st, Dropping(c, s, now), v + 1, arrived)
  {
    hide Dropping, DropList, LastOf, TimedOut, Tracked, Valid;
    DroppingGroups(c, s, now);
    DroppedTracks(c, st, s, m, arrived, v, now);
    BoundBehind(st, s, m, arrived, v + 1);
  }

  /** The tail as a stream that nothing has been flushed of. */
  lemma FollowsFresh(st: Stream, s: AssemblerState, v: nat, arrived: set<nat>)
    requires Valid(s) && Follows(st, s, v, arrived)
    ensures Synced(Tail(st, v), Anchored(Tail(st, v), s), SsrcLog(s.log, st.ssrc), 0, Beyond(st, v, arrived))
  {
    hide Beyond, SsrcLog, Tail, Tracked, IsUnit, Synced;
    var s' := Anchored(Tail(st, v), s);
    TailBase(st, v);
    assert Valid(s');
    assert forall i :: v <= i < |st.stamps| ==> (Tracked(st, s', i, arrived) <==> Tracked(st, s, i, arrived)) by {
      SameTracked(st, s, s', v, arrived);
    }
    FollowsTail(st, s', v, arrived);
  }

  lemma SameTracked(st: Stream, s: AssemblerState, r: AssemblerState, v: nat, arrived: set<nat>)
    requires WellFormed(st) && r.groups == s.groups && r.recent == s.recent
    ensures forall i :: v <= i < |st.stamps| ==> (Tracked(st, r, i, arrived) <==> Tracked(st, s, i, arrived))
  {
    hide Holding, NoneArrived;
  }

  lemma UnmarkedEntered(c: Config, st: Stream, s: AssemblerState, m: nat, arrived: set<nat>, v: nat, u: nat, now: int)
    requires Valid(s) && Tracks(st, s, m, arrived) && now > 0 && DropsUpTo(c, st, s, v, now)
    requires st.starts[v + 1] > 0 && st.starts[v + 1] - 1 !in arrived
    requires ArrivalOrder(s, now) && FirstBehind(st, s, v, Some(u))
    ensures var s2 := Dropping(c, s, now);
      Entered(Tail(st, v + 1), s2, SsrcLog(s2.log, st.ssrc), u, Beyond(st, v + 1, arrived), now)
  {
    hide Dropping, DropList, LastOf, TimedOut, Valid, Tracks, SsrcLog, Beyond, Synced, Leading, Precedes, ArrivalOrder;
    DroppedFollows(c, st, s, m, arrived, v, now);
    DroppedAnchor(c, st, s, m, arrived, v, now);
    DroppedLeads(c, st, s, m, arrived, v, u, now);
    TracksForm(st, s, m, arrived);
    FollowsFresh(st, Dropping(c, s, now), v + 1, arrived);
    TailUnit(st, v + 1, u);
  }

  /** The dropped unit had no marker: the stream goes on exactly under the condition for a new SSRC. */
  lemma UnmarkedReleases(c: Config, st: Stream, s: AssemblerState, m: nat, arrived: set<nat>, v: nat, u: nat, now: int)
    requires Valid(s) && Tracks(st, s, m, arrived) && now > 0 && DropsUpTo(c, st, s, v, now)
    requires st.starts[v + 1] > 0 && st.starts[v + 1] - 1 !in arrived
    requires ArrivalOrder(s, now) && FirstBehind(st, s, v, Some(u))
    ensures (forall k :: k in DropList(c, s, now) ==> k in s.groups) && WellFormed(Tail(st, v + 1))
    ensures var tail, part := Tail(st, v + 1), Beyond(st, v + 1, arrived);
      TransparentAt(tail, EvictStale(c, s, now), WithDrops(c, st, s, now), part) <==> OpensBehind(tail, Some(u), part)
  {
    hide Dropping, DropSsrcs, DropList, LastOf, TimedOut, FlushReadyAll, EvictStale, Valid, Tracks, Records, SsrcLog,
      Tail, Beyond, Entered, TransparentAt, Suffix, SuffixFrom, StartsWith, FirstBehind, ArrivalOrder, Unready,
      FirstFull, UnitSized, Distinct;
    TracksForm(st, s, m, arrived);
    var s2, tail, part := Dropping(c, s, now), Tail(st, v + 1), Beyond(st, v + 1, arrived);
    var before, ssrcs := SsrcLog(s2.log, st.ssrc), DropSsrcs(c, s, now);
    DroppingLog(c, s, now);
    UnmarkedEntered(c, st, s, m, arrived, v, u, now);
    EvictIs(c, s, now);
    SsrcDropped(c, st, s, v, now);
    TailBase(st, v + 1);
    EnteredTracks(tail, s2, before, u, part, now);
    EnteredReleases(c, tail, s2, before, u, part, ssrcs, now);
    SameLogTransparent(tail, FlushReadyAll(c, s2, ssrcs, now), EvictStale(c, s, now), before, part);
  }

  lemma EnteredReleases(c: Config, st: Stream, s: AssemblerState, before: seq<Output>, u: nat, arrived: set<nat>,
                        ssrcs: seq<U32>, now: int)
    requires Entered(st, s, before, u, arrived, now) && now > 0 && WellFormed(st) && st.ssrc in ssrcs
    ensures TransparentAt(st, FlushReadyAll(c, s, ssrcs, now), before, arrived) <==> OpensBehind(st, Some(u), arrived)
  {
    hide FlushReadyAll, Entered, TransparentAt, Suffix, SuffixFrom, StartsWith, Full, UnitSized, Distinct;
    var r := FlushReadyAll(c, s, ssrcs, now);
    EnteredTracks(st, s, before, u, arrived, now);
    if Suffix(st, u, arrived) {
      var a := FlushAllStarts(c, st, s, before, u, arrived, ssrcs, now);
      SuffixInUnit(st, u, arrived, a);
      if TransparentAt(st, r, before, arrived) {
        WrongStart(st, r, before, u, a, arrived);
      }
    } else {
      FlushAllIdle(c, st, s, before, u, arrived, ssrcs, now);
      EnteredLog(st, r, before, u, arrived, now);
      QuietTransparent(st, r, before, arrived);
      if FirstFull(st, arrived) && u == 0 {
        FullIsReady(st, arrived);
      }
    }
  }

  lemma EnteredLog(st: Stream, s: AssemblerState, before: seq<Output>, u: nat, arrived: set<nat>, clock: int)
    requires Entered(st, s, before, u, arrived, clock)
    ensures SsrcLog(s.log, st.ssrc) == before
  {
    hide Tracks, Valid, Leading;
  }

  /** Nothing is pending behind the dropped units. */
  lemma EmptyReleases(c: Config, st: Stream, s: AssemblerState, m: nat, arrived: set<nat>, v: nat, now: int)
    requires Valid(s) && Tracks(st, s, m, arrived) && now > 0 && DropsUpTo(c, st, s, v, now)
    requires FirstBehind(st, s, v, None)
    ensures (forall k :: k in DropList(c, s, now) ==> k in s.groups) && WellFormed(Tail(st, v + 1))
    ensures var tail, part := Tail(st, v + 1), Beyond(st, v + 1, arrived);
      TransparentAt(tail, EvictStale(c, s, now), WithDrops(c, st, s, now), part) <==> OpensBehind(tail, None, part)
  {
    hide Dropping, DropSsrcs, DropList, LastOf, TimedOut, FlushReadyAll, EvictStale, Valid, Records, SsrcLog, Tail,
      Beyond, TransparentAt, Tracked, FirstFull, Suffix, IsUnit, FirstBehind;
    TracksForm(st, s, m, arrived);
    var s2, tail, part := Dropping(c, s, now), Tail(st, v + 1), Beyond(st, v + 1, arrived);
    TailForm(st, v + 1);
    TailBase(st, v + 1);
    DroppingLog(c, s, now);
    DroppingGroups(c, s, now);
    DroppedTracks(c, st, s, m, arrived, v, now);
    forall k | k in s2.groups ensures k.ssrc != st.ssrc {
      if k.ssrc == st.ssrc {
        NoneBehind(st, s, v, k);
      }
    }
    FlushAllNone(c, s2, DropSsrcs(c, s, now), st.ssrc, now);
    EvictIs(c, s, now);
    QuietTransparent(tail, EvictStale(c, s, now), SsrcLog(s2.log, st.ssrc), part);
  }

  lemma NoneBehind(st: Stream, s: AssemblerState, v: nat, k: Key)
    requires FirstBehind(st, s, v, None) && IsUnit(st, v + 1, k)
    ensures k !in s.groups
  {
  }

  lemma {:induction false} FlushAllNone(c: Config, s: AssemblerState, ssrcs: seq<U32>, ssrc: U32, now: int)
    requires NonePending(s, ssrc)
    ensures SsrcLog(FlushReadyAll(c, s, ssrcs, now).log, ssrc) == SsrcLog(s.log, ssrc)
    decreases ssrcs
  {
    hide FlushReady, SsrcLog;
    if ssrcs != [] {
      var r := FlushReady(c, s, ssrcs[0], now);
      var ts := FlushReadyRuns(c, s, ssrcs[0], now);
      RunsQuiet(c, s, ts, r, ssrc);
      FlushAllNone(c, r, ssrcs[1..], ssrc, now);
    }
  }

  lemma {:induction false} RunsQuiet(c: Config, s: AssemblerState, ts: seq<Step>, r: AssemblerState, ssrc: U32)
    requires Runs(c, s, ts, r) && NonePending(s, ssrc) && forall i :: 0 <= i < |ts| ==> ts[i].SArm? || ts[i].SFlush?
    ensures NonePending(r, ssrc) && SsrcLog(r.log, ssrc) == SsrcLog(s.log, ssrc)
    decreases ts
  {
    hide SsrcLog, SortedPackets, LastMarkerOf, GapFree;
    if ts != [] {
      var t := ts[0];
      if t.SFlush? {
        SsrcLogAppend(s.log, FlushOutput(s, t.key), ssrc);
      }
      RunsQuiet(c, Apply(c, s, t), ts[1..], r, ssrc);
    }
  }

  /**
   Units time out, `v` the last of them. The same eviction then flushes exactly the whole units directly behind
   `v`, in sending order, if and only if the last packet of `v` had arrived, or the condition under which a new
   SSRC is followed from its first unit on holds for the units behind `v`.
   */
  lemma TimeoutReleasesIff(c: Config, st: Stream, s: AssemblerState, m: nat, arrived: set<nat>, v: nat,
                           first: Option<nat>, now: int)
    requires Valid(s) && Tracks(st, s, m, arrived) && now > 0 && DropsUpTo(c, st, s, v, now)
    requires ArrivalOrder(s, now) && FirstBehind(st, s, v, first)
    ensures (forall k :: k in DropList(c, s, now) ==> k in s.groups)
    ensures st.starts[v + 1] > 0 && WellFormed(Tail(st, v + 1))
    ensures var tail, part := Tail(st, v + 1), Beyond(st, v + 1, arrived);
      TransparentAt(tail, EvictStale(c, s, now), WithDrops(c, st, s, now), part)
      <==> st.starts[v + 1] - 1 in arrived || OpensBehind(tail, first, part)
  {
    hide Valid, Tracks, ArrivalOrder, FirstBehind, EvictStale, WithDrops, Tail, Beyond, TransparentAt, OpensBehind,
      DropList, TimedOut;
    TracksForm(st, s, m, arrived);
    DroppedAnchor(c, st, s, m, arrived, v, now);
    if st.starts[v + 1] - 1 in arrived {
      MarkedReleases(c, st, s, m, arrived, v, now);
    } else if first.None? {
      EmptyReleases(c, st, s, m, arrived, v, now);
    } else {
      UnmarkedReleases(c, st, s, m, arrived, v, first.value, now);
    }
  }

  /** One unit has timed out and nothing before it is pending. */
  lemma OneTimeout(c: Config, st: Stream, s: AssemblerState, v: nat, now: int)
    requires Valid(s) && WellFormed(st) && now > 0 && v < |st.stamps| && UnitKey(st, v) in s.groups
    requires forall k :: k in s.groups && k.ssrc == st.ssrc ==>
               (TimedOut(c, s.groups[k], now) <==> k == UnitKey(st, v))
    requires forall i :: 0 <= i < v ==> UnitKey(st, i) !in s.groups
    ensures DropsUpTo(c, st, s, v, now)
  {
    hide DropList, TimedOut, Valid, Distinct, UnitSized;
    DropListIs(c, s, now);
    LastOfMember(DropList(c, s, now), st.ssrc);
    forall i | 0 <= i < |st.stamps| && UnitKey(st, i) in s.groups
      ensures TimedOut(c, s.groups[UnitKey(st, i)], now) <==> i <= v
    {
      UnitKeys(st, i, v);
    }
  }

  // ---- runs ----

  lemma AppendPrecedes(order: seq<Key>, x: Key, k: Key, k': Key)
    requires Precedes(order + [x], k, k') && x !in order
    ensures k in order && (k' == x || (k' in order && Precedes(order, k, k')))
  {
    var i, j :| 0 <= i < j < |order + [x]| && (order + [x])[i] == k && (order + [x])[j] == k';
    if j < |order| {
      assert order[i] == k && order[j] == k';
    }
  }

  lemma {:induction false} RemovedPlace(order: seq<Key>, x: Key, i: nat, j: nat) returns (i': nat, j': nat)
    requires i < j < |Remove(order, x)|
    ensures i' < j' < |order| && order[i'] == Remove(order, x)[i] && order[j'] == Remove(order, x)[j]
  {
    assert order != [];
    if order[0] == x {
      i', j' := RemovedPlace(order[1..], x, i, j);
      i', j' := i' + 1, j' + 1;
    } else if i == 0 {
      var rest := Remove(order[1..], x);
      assert rest[j - 1] in rest;
      assert rest[j - 1] in order[1..];
      var h :| 0 <= h < |order[1..]| && order[1..][h] == rest[j - 1];
      i', j' := 0, h + 1;
    } else {
      i', j' := RemovedPlace(order[1..], x, i - 1, j - 1);
      i', j' := i' + 1, j' + 1;
    }
  }

  lemma RemovedPrecedes(order: seq<Key>, x: Key, k: Key, k': Key)
    requires Precedes(Remove(order, x), k, k')
    ensures Precedes(order, k, k')
  {
    var i, j :| 0 <= i < j < |Remove(order, x)| && Remove(order, x)[i] == k && Remove(order, x)[j] == k';
    var i', j' := RemovedPlace(order, x, i, j);
  }

  lemma StepArrivalOrder(c: Config, s: AssemblerState, t: Step, now: int)
    requires Valid(s) && Legal(c, s, t) && (t.SGiveBack? || t.now == now) && ArrivalOrder(s, now)
    ensures ArrivalOrder(Apply(c, s, t), now)
  {
    hide Precedes, Complete, SortedPackets, LastMarkerOf;
    var r := Apply(c, s, t);
    forall k, k' | k in r.groups && k' in r.groups && Precedes(r.groupOrder, k, k')
      ensures r.groups[k].arrival <= r.groups[k'].arrival
    {
      if t.SAdd? && t.key !in s.groups {
        AppendPrecedes(s.groupOrder, t.key, k, k');
      } else if t.SFlush? || t.SDrop? {
        RemovedPrecedes(s.groupOrder, t.key, k, k');
      }
    }
  }

  lemma {:induction false} RunsArrivalOrder(c: Config, s: AssemblerState, ts: seq<Step>, r: AssemblerState, now: int)
    requires Valid(s) && Runs(c, s, ts, r) && AllAt(ts, now) && now > 0 && ArrivalOrder(s, now)
    ensures ArrivalOrder(r, now)
    decreases ts
  {
    hide Apply, Legal, Valid, ArrivalOrder;
    if ts != [] {
      StepArrivalOrder(c, s, ts[0], now);
      StepKeepsValid(c, s, ts[0]);
      RunsArrivalOrder(c, Apply(c, s, ts[0]), ts[1..], r, now);
    }
  }

  lemma NextArrivalOrder(c: Config, w: System, e: Event)
    requires Valid(w.a) && e.now > 0 && ArrivalOrder(w.a, e.now)
    ensures ArrivalOrder(Next(c, w, e).a, e.now)
  {
    hide QueuePacket, EvictStale, Precedes;
    if e.Queue? || e.Evict? {
      var ts := NextRuns(c, w, e);
      RunsArrivalOrder(c, w.a, ts, Next(c, w, e).a, e.now);
    }
  }

  /** In every run the groups are listed as they arrived. */
  lemma {:induction false} AlwaysArrivalOrder(c: Config, n: nat, ws: seq<System>, es: seq<Event>, i: nat)
    requires Trace(c, ws, es) && ws[0] == Start(n) && i < |es|
    ensures ArrivalOrder(ws[i].a, es[i].now)
  {
    hide Next, Precedes;
    if i > 0 {
      AlwaysArrivalOrder(c, n, ws, es, i - 1);
      SlotConservation(c, n, ws, es, i - 1);
      NextArrivalOrder(c, ws[i - 1], es[i - 1]);
      assert ws[i] == Next(c, ws[i - 1], es[i - 1]);
    }
  }

  /**
   The same over runs: event `t` is an eviction in a run from a new pool, the stream started at event `b`, and
   its events up to `t` were orderly; `m` units are flushed.
   */
  lemma TimeoutInRun(c: Config, n: nat, st: Stream, ws: seq<System>, es: seq<Event>, ids: seq<(nat, nat)>,
                     b: nat, t: nat, v: nat, first: Option<nat>)
    requires Trace(c, ws, es) && ws[0] == Start(n) && b <= t < |es| && |ids| == t - b && es[t].Evict?
    requires Ready(c, st, ws[b].a) && OrderlyRun(c, st, ws[b..t + 1], es[b..t], ids)
    requires DropsUpTo(c, st, ws[t].a, v, es[t].now) && FirstBehind(st, ws[t].a, v, first)
    ensures (forall k :: k in DropList(c, ws[t].a, es[t].now) ==> k in ws[t].a.groups)
    ensures st.starts[v + 1] > 0 && WellFormed(Tail(st, v + 1))
    ensures var arrived := Arrived(st, es[b..t], ids, t - b);
      var tail, part := Tail(st, v + 1), Beyond(st, v + 1, arrived);
      TransparentAt(tail, ws[t + 1].a, WithDrops(c, st, ws[t].a, es[t].now), part)
      <==> st.starts[v + 1] - 1 in arrived || OpensBehind(tail, first, part)
  {
    hide Next, Valid, Tracks, DropsUpTo, FirstBehind, EvictStale, WithDrops, Tail, Beyond, TransparentAt,
      OpensBehind, DropList, OrderlyRun, ArrivalOrder, LogIs;
    var part := ws[b..t + 1];
    TraceTail(c, ws, es, b, t);
    var m := TransparentUpTo(c, st, part, es[b..t], ids, t - b);
    assert part[t - b] == ws[t];
    AlwaysArrivalOrder(c, n, ws, es, t);
    TimeoutReleasesIff(c, st, ws[t].a, m, Arrived(st, es[b..t], ids, t - b), v, first, es[t].now);
    assert ws[t + 1] == Next(c, ws[t], es[t]);
    EvictNext(c, ws[t], es[t]);
  }

  lemma EvictNext(c: Config, w: System, e: Event)
    requires e.Evict?
    ensures Next(c, w, e).a == EvictStale(c, w.a, e.now)
  {
  }

  lemma TraceTail(c: Config, ws: seq<System>, es: seq<Event>, b: nat, t: nat)
    requires Trace(c, ws, es) && b <= t <= |es|
    ensures Trace(c, ws[b..t + 1], es[b..t])
  {
    hide Next, Enabled;
    var us, fs := ws[b..t + 1], es[b..t];
    forall i | 0 <= i < |fs| ensures Enabled(us[i], fs[i]) && us[i + 1] == Next(c, us[i], fs[i]) {
      assert es[b + i] == fs[i];
    }
  }

  // ---- an example ----

  /** Units of three packets and of one; packet 1 is lost. */
  const EXAMPLE := Stream(1, 10, [0, 3, 4], [100, 200])
  const BROKEN := Key(1, 100)
  const BEHIND := Key(1, 200)

  ghost function ExampleState(c: Config): AssemblerState {
    AssemblerState(
      map[BROKEN := Group([GroupPacket(10, false, 0), GroupPacket(12, true, 1)], 1, 1 + c.repairWait, true),
          BEHIND := Group([GroupPacket(13, true, 2)], 2, 0, true)],
      [BROKEN, BEHIND], [BROKEN], map[], map[1 := 9], [], [])
  }

  lemma ExampleValid(c: Config)
    ensures WellFormed(EXAMPLE) && Valid(ExampleState(c))
  {
    var s, st := ExampleState(c), EXAMPLE;
    assert UnitSized(st, 0) && UnitSized(st, 1);
    assert s.groups[BROKEN].pkts[1].marker && s.groups[BEHIND].pkts[0].marker;
  }

  lemma BrokenHolding()
    ensures WellFormed(EXAMPLE)
    ensures Holding(EXAMPLE, 0, {0, 2, 3}, [GroupPacket(10, false, 0), GroupPacket(12, true, 1)])
  {
    hide Holding;
    var st, none: set<nat> := EXAMPLE, {};
    assert UnitSized(st, 0) && UnitSized(st, 1);
    var a, b := Packet(st, 0, 0, 0), Packet(st, 0, 2, 1);
    AddToUnit(st, 0, 0, none, [], 0);
    AddToUnit(st, 0, 2, none + {0}, [] + [a], 1);
    OtherUnit(st, 1, 0, 3, none + {0} + {2}, [] + [a] + [b]);
    assert none + {0} + {2} + {3} == {0, 2, 3} && [] + [a] + [b] == [a, b];
  }

  lemma BehindHolding()
    ensures WellFormed(EXAMPLE) && Holding(EXAMPLE, 1, {0, 2, 3}, [GroupPacket(13, true, 2)])
  {
    hide Holding;
    var st, both: set<nat> := EXAMPLE, {0, 2};
    assert UnitSized(st, 0) && UnitSized(st, 1);
    AddToUnit(st, 1, 3, both, [], 2);
    assert both + {3} == {0, 2, 3} && [] + [Packet(st, 1, 3, 2)] == [GroupPacket(13, true, 2)];
  }

  lemma BothTracked(c: Config)
    ensures WellFormed(EXAMPLE)
    ensures Tracked(EXAMPLE, ExampleState(c), 0, {0, 2, 3}) && Tracked(EXAMPLE, ExampleState(c), 1, {0, 2, 3})
  {
    hide Holding, NoneArrived;
    BrokenHolding();
    BehindHolding();
    assert UnitKey(EXAMPLE, 0) == BROKEN && UnitKey(EXAMPLE, 1) == BEHIND;
  }

  lemma ExampleTracks(c: Config)
    ensures Tracks(EXAMPLE, ExampleState(c), 0, {0, 2, 3})
  {
    hide Tracked, UnitSized, Distinct;
    ExampleValid(c);
    BothTracked(c);
    assert UnitKey(EXAMPLE, 0) == BROKEN && UnitKey(EXAMPLE, 1) == BEHIND;
    assert IsUnit(EXAMPLE, 0, BROKEN) && IsUnit(EXAMPLE, 0, BEHIND);
  }

  /** The broken unit is dropped at its deadline, and the unit behind it flushed by the same eviction. */
  lemma ExampleReleased(c: Config)
    requires c.codec == Avc && 0 < c.repairWait <= c.groupTtl
    ensures var s, now := ExampleState(c), 1 + c.repairWait;
      && Valid(s) && Tracks(EXAMPLE, s, 0, {0, 2, 3}) && DropsUpTo(c, EXAMPLE, s, 0, now)
      && ArrivalOrder(s, now) && FirstBehind(EXAMPLE, s, 0, Some(0))
      && (forall k :: k in DropList(c, s, now) ==> k in s.groups) && WellFormed(Tail(EXAMPLE, 1))
      && TransparentAt(Tail(EXAMPLE, 1), EvictStale(c, s, now), WithDrops(c, EXAMPLE, s, now),
                       Beyond(EXAMPLE, 1, {0, 2, 3}))
  {
    hide Tracks, Valid, DropsUpTo, EvictStale, WithDrops, Tail, Beyond, TransparentAt, DropList, WellFormed,
      OpensBehind;
    var s, now := ExampleState(c), 1 + c.repairWait;
    ExampleValid(c);
    ExampleTracks(c);
    OneTimeout(c, EXAMPLE, s, 0, now);
    TimeoutReleasesIff(c, EXAMPLE, s, 0, {0, 2, 3}, 0, Some(0), now);
  }

  /** Unit 0 has lost its marker packet, and unit 2 has overtaken unit 1. */
  const OVERTAKEN := Stream(1, 10, [0, 2, 3, 4], [100, 200, 300])
  const NEXT := Key(1, 200)
  const LATER := Key(1, 300)

  ghost function OvertakenState(c: Config): AssemblerState {
    AssemblerState(
      map[BROKEN := Group([GroupPacket(10, false, 0)], 1, 1 + c.repairWait, false),
          LATER := Group([GroupPacket(13, true, 1)], 1, 0, true),
          NEXT := Group([GroupPacket(12, true, 2)], 1, 0, true)],
      [BROKEN, LATER, NEXT], [BROKEN], map[], map[1 := 9], [], [])
  }

  lemma OvertakenForm()
    ensures WellFormed(OVERTAKEN) && UnitKey(OVERTAKEN, 0) == BROKEN && UnitKey(OVERTAKEN, 1) == NEXT
    ensures UnitKey(OVERTAKEN, 2) == LATER
  {
    assert UnitSized(OVERTAKEN, 0) && UnitSized(OVERTAKEN, 1) && UnitSized(OVERTAKEN, 2);
  }

  lemma OvertakenValid(c: Config)
    ensures Valid(OvertakenState(c))
  {
    var s := OvertakenState(c);
    assert s.groups[LATER].pkts[0].marker && s.groups[NEXT].pkts[0].marker;
  }

  /** One packet of unit `i`, and the packets of two other units. */
  lemma OneHolding(i: nat, j: nat, others: set<nat>, slot: nat)
    requires i < 3 && InUnit(OVERTAKEN, i, j) && forall x :: x in others ==> !InUnit(OVERTAKEN, i, x)
    ensures WellFormed(OVERTAKEN) && Holding(OVERTAKEN, i, others + {j}, [Packet(OVERTAKEN, i, j, slot)])
  {
    hide Holding;
    OvertakenForm();
    AddToUnit(OVERTAKEN, i, j, others, [], slot);
    assert [] + [Packet(OVERTAKEN, i, j, slot)] == [Packet(OVERTAKEN, i, j, slot)];
  }

  lemma OvertakenTracked(c: Config, i: nat)
    requires i < 3
    ensures |OVERTAKEN.starts| == 4 && Tracked(OVERTAKEN, OvertakenState(c), i, {0, 2, 3})
  {
    hide Holding, NoneArrived;
    OvertakenForm();
    if i == 0 {
      OneHolding(0, 0, {2, 3}, 0);
      assert {2, 3} + {0} == {0, 2, 3} && Packet(OVERTAKEN, 0, 0, 0) == GroupPacket(10, false, 0);
    } else if i == 1 {
      OneHolding(1, 2, {0, 3}, 2);
      assert {0, 3} + {2} == {0, 2, 3} && Packet(OVERTAKEN, 1, 2, 2) == GroupPacket(12, true, 2);
    } else {
      OneHolding(2, 3, {0, 2}, 1);
      assert {0, 2} + {3} == {0, 2, 3} && Packet(OVERTAKEN, 2, 3, 1) == GroupPacket(13, true, 1);
    }
  }

  lemma OvertakenTracks(c: Config)
    ensures Tracks(OVERTAKEN, OvertakenState(c), 0, {0, 2, 3})
  {
    hide Tracked, UnitSized, Distinct;
    OvertakenForm();
    forall i | 0 <= i < |OVERTAKEN.stamps| ensures Tracked(OVERTAKEN, OvertakenState(c), i, {0, 2, 3}) {
      OvertakenTracked(c, i);
    }
    assert IsUnit(OVERTAKEN, 0, BROKEN) && IsUnit(OVERTAKEN, 0, NEXT) && IsUnit(OVERTAKEN, 0, LATER);
  }

  lemma OvertakenFirst(c: Config)
    ensures FirstBehind(OVERTAKEN, OvertakenState(c), 0, Some(1)) && ArrivalOrder(OvertakenState(c), 1 + c.repairWait)
  {
    OvertakenForm();
    var order := OvertakenState(c).groupOrder;
    assert order[1] == LATER && order[2] == NEXT;
    assert Precedes(order, LATER, NEXT);
  }

  lemma OvertakenShut()
    ensures WellFormed(OVERTAKEN) && !OpensBehind(Tail(OVERTAKEN, 1), Some(1), Beyond(OVERTAKEN, 1, {0, 2, 3}))
  {
    OvertakenForm();
    var tail, part := Tail(OVERTAKEN, 1), Beyond(OVERTAKEN, 1, {0, 2, 3});
    assert tail.starts[1] == 1 && tail.starts[2] == 2;
    assert ArrivedAt({0, 2, 3}, 2, 1) && 1 in part;
    assert SuffixFrom(tail, 1, part, 1);
  }

  /** The whole unit right behind the dropped one is passed over. */
  lemma OvertakenSkips(c: Config)
    requires c.codec == Avc && 0 < c.repairWait <= c.groupTtl
    ensures var s, now := OvertakenState(c), 1 + c.repairWait;
      && Valid(s) && Tracks(OVERTAKEN, s, 0, {0, 2, 3}) && DropsUpTo(c, OVERTAKEN, s, 0, now)
      && (forall k :: k in DropList(c, s, now) ==> k in s.groups) && WellFormed(Tail(OVERTAKEN, 1))
      && !TransparentAt(Tail(OVERTAKEN, 1), EvictStale(c, s, now), WithDrops(c, OVERTAKEN, s, now),
                        Beyond(OVERTAKEN, 1, {0, 2, 3}))
  {
    hide Tracks, Valid, DropsUpTo, EvictStale, WithDrops, Tail, Beyond, TransparentAt, DropList, OpensBehind,
      ArrivalOrder, FirstBehind, UnitSized, Distinct;
    var s, now := OvertakenState(c), 1 + c.repairWait;
    OvertakenForm();
    OvertakenValid(c);
    OvertakenTracks(c);
    OvertakenFirst(c);
    OvertakenShut();
    OneTimeout(c, OVERTAKEN, s, 0, now);
    TimeoutReleasesIff(c, OVERTAKEN, s, 0, {0, 2, 3}, 0, Some(1), now);
  }
}
