/** What every run of the assembler keeps: consistent containers, slot ownership, bounded waiting. */
module AssemblerInvariants {
  import opened Wire
  import opened CircularSort
  import opened AssemblerModel
  import opened AssemblerSteps

  ghost predicate AnyMarker(p: seq<GroupPacket>) {
    exists i :: 0 <= i < |p| && p[i].marker
  }

  ghost predicate ValidGroup(g: Group) {
    g.pkts != [] && DistinctNums(g.pkts) && (g.hasMarker <==> AnyMarker(g.pkts))
  }

  /** `group_order_` lists the pending keys, `deadline_order_` those with a deadline, `recently_flushed_` others. */
  ghost predicate Valid(s: AssemblerState) {
    && Distinct(s.groupOrder)
    && (forall k :: k in s.groupOrder <==> k in s.groups)
    && Distinct(s.deadlineOrder)
    && (forall k :: k in s.deadlineOrder <==> k in s.groups && s.groups[k].deadline != 0)
    && (forall k :: k in s.recent ==> k !in s.groups)
    && (forall k :: k in s.groups ==> ValidGroup(s.groups[k]))
  }

  lemma AppendDistinct<T>(s: seq<T>, x: T)
    requires Distinct(s) && x !in s
    ensures Distinct(s + [x])
  {
  }

  lemma AddKeepsGroup(g: Group, p: GroupPacket)
    requires ValidGroup(g)
    requires forall i :: 0 <= i < |g.pkts| ==> g.pkts[i].num != p.num
    ensures ValidGroup(g.(pkts := g.pkts + [p], hasMarker := g.hasMarker || p.marker))
  {
    var q := g.pkts + [p];
    if g.hasMarker {
      var i :| 0 <= i < |g.pkts| && g.pkts[i].marker;
      assert q[i].marker;
    }
    assert q[|g.pkts|] == p;
  }

  lemma RetireKeepsValid(s: AssemblerState, k: Key, now: int)
    requires Valid(s) && k in s.groups
    ensures Valid(Retire(s, k, now))
  {
    RemoveDistinct(s.groupOrder, k);
    RemoveDistinct(s.deadlineOrder, k);
  }

  lemma AddKeepsValid(s: AssemblerState, k: Key, p: GroupPacket, now: int)
    requires Valid(s) && k !in s.recent && !Holds(s, k, p.num)
    ensures Valid(AddPacket(s, k, p, now))
  {
    if k in s.groups {
      AddKeepsGroup(s.groups[k], p);
    } else {
      AppendDistinct(s.groupOrder, k);
      assert [p][0] == p;
    }
  }

  lemma StepKeepsValid(c: Config, s: AssemblerState, t: Step)
    requires Valid(s) && Legal(c, s, t) && (t.SGiveBack? || t.now > 0)
    ensures Valid(Apply(c, s, t))
  {
    match t
    case SGiveBack(_) =>
    case SAdd(k, p, now) => AddKeepsValid(s, k, p, now);
    case SArm(k, now) => AppendDistinct(s.deadlineOrder, k);
    case SFlush(k, now) => RetireKeepsValid(s, k, now);
    case SDrop(k, _, now) => RetireKeepsValid(s, k, now);
    case SForget(now) =>
  }

  // ---- slot ownership ----

  /** Every slot the pool or a pending group owns, with multiplicity. */
  ghost function Owned(s: AssemblerState): multiset<nat> {
    multiset(s.free) + multiset(PendingSlots(s.groups, s.groupOrder))
  }

  lemma PendingSame(g: map<Key, Group>, h: map<Key, Group>, order: seq<Key>)
    requires forall k :: k in order ==> (k in g <==> k in h) && (k in g ==> g[k].pkts == h[k].pkts)
    ensures PendingSlots(g, order) == PendingSlots(h, order)
  {
  }

  lemma PendingAppend(g: map<Key, Group>, order: seq<Key>, k: Key)
    ensures PendingSlots(g, order + [k]) ==
            PendingSlots(g, order) + if k in g then Slots(g[k].pkts) else []
  {
    hide Slots;
    if order == [] {
      assert order + [k] == [k];
    } else {
      assert (order + [k])[1..] == order[1..] + [k];
      PendingAppend(g, order[1..], k);
    }
  }

  lemma PendingRetire(g: map<Key, Group>, order: seq<Key>, k: Key)
    requires Distinct(order) && k in order && k in g
    ensures multiset(PendingSlots(g, order)) ==
            multiset(Slots(g[k].pkts)) + multiset(PendingSlots(g - {k}, Remove(order, k)))
  {
    if order[0] == k {
      assert k !in order[1..];
      RemoveAbsent(order[1..], k);
      PendingSame(g, g - {k}, order[1..]);
    } else {
      PendingRetire(g, order[1..], k);
      assert Remove(order, k) == [order[0]] + Remove(order[1..], k);
    }
  }

  lemma PendingGrow(g: map<Key, Group>, order: seq<Key>, k: Key, p: GroupPacket, h: Group)
    requires Distinct(order) && k in order && k in g && h.pkts == g[k].pkts + [p]
    ensures multiset(PendingSlots(g[k := h], order)) == multiset(PendingSlots(g, order)) + multiset{p.slot}
  {
    if order[0] == k {
      assert k !in order[1..];
      PendingSame(g, g[k := h], order[1..]);
      assert Slots(h.pkts) == Slots(g[k].pkts) + [p.slot];
    } else {
      PendingGrow(g, order[1..], k, p, h);
    }
  }

  /** Slots a step takes from its caller. */
  ghost function Taken(t: Step): multiset<nat> {
    match t
    case SGiveBack(slot) => multiset{slot}
    case SAdd(_, p, _) => multiset{p.slot}
    case _ => multiset{}
  }

  lemma AddOwns(s: AssemblerState, k: Key, p: GroupPacket, now: int)
    requires Valid(s)
    ensures Owned(AddPacket(s, k, p, now)) == Owned(s) + multiset{p.slot}
  {
    var s' := AddPacket(s, k, p, now);
    if k in s.groups {
      PendingGrow(s.groups, s.groupOrder, k, p, s'.groups[k]);
    } else {
      PendingAppend(s'.groups, s.groupOrder, k);
      PendingSame(s.groups, s'.groups, s.groupOrder);
      assert Slots([p]) == [p.slot];
    }
  }

  lemma RetireOwns(s: AssemblerState, k: Key, now: int)
    requires Valid(s) && k in s.groups
    ensures Owned(Retire(s, k, now)) == Owned(s)
  {
    PendingRetire(s.groups, s.groupOrder, k);
  }

  lemma ArmOwns(c: Config, s: AssemblerState, k: Key, now: int)
    requires k in s.groups
    ensures Owned(Arm(c, s, k, now)) == Owned(s)
  {
    PendingSame(s.groups, Arm(c, s, k, now).groups, s.groupOrder);
  }

  lemma RetiredOwns(s: AssemblerState, k: Key, reason: Reason, now: int)
    requires Valid(s) && k in s.groups
    ensures Owned(Flush(s, k, now)) == Owned(s) && Owned(Drop(s, k, reason, now)) == Owned(s)
  {
    hide SortedPackets, LastMarkerOf, PendingSlots, Valid;
    RetireOwns(s, k, now);
  }

  lemma StepOwns(c: Config, s: AssemblerState, t: Step)
    requires Valid(s) && Legal(c, s, t)
    ensures Owned(Apply(c, s, t)) == Owned(s) + Taken(t)
  {
    hide Valid, Flush, Drop, Arm, AddPacket, PendingSlots, Complete;
    match t
    case SGiveBack(_) =>
    case SAdd(k, p, now) => AddOwns(s, k, p, now);
    case SArm(k, now) => ArmOwns(c, s, k, now);
    case SFlush(k, now) => RetiredOwns(s, k, RepairTimeout, now);
    case SDrop(k, reason, now) => RetiredOwns(s, k, reason, now);
    case SForget(now) =>
  }

  ghost function TakenAll(ts: seq<Step>): multiset<nat> {
    if ts == [] then multiset{} else Taken(ts[0]) + TakenAll(ts[1..])
  }

  lemma TakesNothing(ts: seq<Step>)
    requires NoIntake(ts)
    ensures TakenAll(ts) == multiset{}
  {
  }

  lemma TakenByQueue(t: Step, us: seq<Step>, slot: nat)
    requires Taken(t) == multiset{slot} && NoIntake(us)
    ensures TakenAll([t] + us) == multiset{slot}
  {
    assert ([t] + us)[1..] == us;
    TakesNothing(us);
  }

  // ---- waiting ----

  /** Nothing arrived after `t`, and no deadline lies further than the repair wait after `t`. */
  ghost predicate Timely(c: Config, s: AssemblerState, t: int) {
    forall k :: k in s.groups ==> s.groups[k].arrival <= t && s.groups[k].deadline <= t + c.repairWait
  }

  /** Each group is younger than `since`, or has a deadline no later than `until`. */
  ghost predicate YoungOrDue(s: AssemblerState, since: int, until: int) {
    forall k :: k in s.groups ==> since <= s.groups[k].arrival || 0 < s.groups[k].deadline <= until
  }

  /** The same group later on: its arrival and an armed deadline stay, its packets only grow. */
  ghost predicate SameGroup(g: Group, h: Group) {
    h.arrival == g.arrival && (g.deadline != 0 ==> h.deadline == g.deadline) && g.pkts <= h.pkts
  }

  /** What `evict_stale(now)` leaves: groups due later than `now`, or not older than the TTL. */
  ghost predicate Fresh(c: Config, s: AssemblerState, now: int) {
    forall k :: k in s.groups ==>
      if s.groups[k].deadline != 0 then now < s.groups[k].deadline else now - s.groups[k].arrival <= c.groupTtl
  }

  lemma StepWaits(c: Config, s: AssemblerState, t: Step, now: int)
    requires Legal(c, s, t) && (t.SGiveBack? || t.now == now) && now >= 0
    ensures Timely(c, s, now) ==> Timely(c, Apply(c, s, t), now)
    ensures c.repairWait > 0 && Fresh(c, s, now) ==> Fresh(c, Apply(c, s, t), now)
  {
  }

  lemma StepYoungOrDue(c: Config, s: AssemblerState, t: Step, now: int, since: int, until: int)
    requires Legal(c, s, t) && (t.SGiveBack? || t.now == now) && since <= now && YoungOrDue(s, since, until)
    ensures YoungOrDue(Apply(c, s, t), since, until)
  {
  }

  /** Only intake makes a group, so one that is pending after another step was pending before it. */
  lemma StepSameGroup(c: Config, s: AssemblerState, t: Step, k: Key)
    requires Legal(c, s, t) && k in Apply(c, s, t).groups && (t.SAdd? ==> k in s.groups)
    ensures k in s.groups && SameGroup(s.groups[k], Apply(c, s, t).groups[k])
  {
  }

  // ---- whole operations ----

  lemma RunsKeep(c: Config, s: AssemblerState, ts: seq<Step>, r: AssemblerState, now: int)
    requires Runs(c, s, ts, r) && AllAt(ts, now) && now > 0 && Valid(s)
    ensures Valid(r)
    ensures Owned(r) == Owned(s) + TakenAll(ts)
    decreases ts
  {
    if ts != [] {
      StepKeepsValid(c, s, ts[0]);
      StepOwns(c, s, ts[0]);
      RunsKeep(c, Apply(c, s, ts[0]), ts[1..], r, now);
    }
  }

  lemma RunsWait(c: Config, s: AssemblerState, ts: seq<Step>, r: AssemblerState, now: int)
    requires Runs(c, s, ts, r) && AllAt(ts, now) && now > 0
    ensures Timely(c, s, now) ==> Timely(c, r, now)
    ensures c.repairWait > 0 && Fresh(c, s, now) ==> Fresh(c, r, now)
    decreases ts
  {
    if ts != [] {
      StepWaits(c, s, ts[0], now);
      RunsWait(c, Apply(c, s, ts[0]), ts[1..], r, now);
    }
  }

  lemma RunsYoungOrDue(c: Config, s: AssemblerState, ts: seq<Step>, r: AssemblerState, now: int, since: int, until: int)
    requires Runs(c, s, ts, r) && AllAt(ts, now) && since <= now && YoungOrDue(s, since, until)
    ensures YoungOrDue(r, since, until)
    decreases ts
  {
    if ts != [] {
      StepYoungOrDue(c, s, ts[0], now, since, until);
      RunsYoungOrDue(c, Apply(c, s, ts[0]), ts[1..], r, now, since, until);
    }
  }

  lemma {:induction false} RunsSameGroup(c: Config, s: AssemblerState, ts: seq<Step>, r: AssemblerState, k: Key)
    requires Runs(c, s, ts, r) && NoIntake(ts) && k in r.groups
    ensures k in s.groups && SameGroup(s.groups[k], r.groups[k])
    decreases ts
  {
    hide Apply, Legal;
    if ts != [] {
      RunsSameGroup(c, Apply(c, s, ts[0]), ts[1..], r, k);
      StepSameGroup(c, s, ts[0], k);
    }
  }

  /** A key that is pending after a packet for it was queued was not remembered as retired. */
  lemma NotRemembered(c: Config, s: AssemblerState, k: Key, p: GroupPacket, now: int)
    requires Valid(s) && k in QueuePacket(c, s, k, p, now).groups
    ensures k !in s.recent
  {
    hide Settle, Flush;
  }
}
