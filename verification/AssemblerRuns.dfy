/**
 Whole runs: any interleaving of slot acquisition, release, `queue_packet`, `evict_stale` and `reset`
 by the packet thread (src/session/session.cpp:382-399), with a clock that never goes back.
 */
module AssemblerRuns {
  import opened CircularSort
  import opened AssemblerModel
  import opened AssemblerSteps
  import opened AssemblerInvariants

  datatype Event =
    | Acquire(now: int)
    | Release(slot: nat, now: int)
    | Queue(key: Key, p: GroupPacket, now: int)
    | Evict(now: int)
    | ResetAll(now: int)

  /** The assembler together with the slots in the caller's hands. */
  datatype System = System(a: AssemblerState, held: multiset<nat>)

  /** The caller only hands over slots it holds. */
  ghost predicate Enabled(w: System, e: Event) {
    match e
    case Release(slot, _) => slot in w.held
    case Queue(_, p, _) => p.slot in w.held
    case _ => true
  }

  ghost function Next(c: Config, w: System, e: Event): System {
    match e
    case Acquire(_) =>
      var n := |w.a.free|;
      if n == 0 then w
      else System(w.a.(free := w.a.free[..n - 1]), w.held + multiset{w.a.free[n - 1]})
    case Release(slot, _) => System(GiveBack(w.a, slot), w.held - multiset{slot})
    case Queue(k, p, now) => System(QueuePacket(c, w.a, k, p, now), w.held - multiset{p.slot})
    case Evict(now) => System(EvictStale(c, w.a, now), w.held)
    case ResetAll(_) => System(Reset(w.a), w.held)
  }

  ghost predicate Clocked(es: seq<Event>) {
    && (forall i :: 0 <= i < |es| ==> 0 < es[i].now)
    && (forall i, j :: 0 <= i < j < |es| ==> es[i].now <= es[j].now)
  }

  /** `ws` is the run of the events `es` from `ws[0]`. */
  ghost predicate Trace(c: Config, ws: seq<System>, es: seq<Event>) {
    && |ws| == |es| + 1
    && Clocked(es)
    && forall i {:trigger es[i]} :: 0 <= i < |es| ==> Enabled(ws[i], es[i]) && ws[i + 1] == Next(c, ws[i], es[i])
  }

  /** A new pool of `n` slots: the constructor pushes `n - 1` down to 0. */
  ghost function Start(n: nat): System {
    System(AssemblerState(map[], [], [], map[], map[], seq(n, i requires 0 <= i < n => n - 1 - i), []), multiset{})
  }

  ghost function Everywhere(w: System): multiset<nat> {
    Owned(w.a) + w.held
  }

  lemma QueueKeeps(c: Config, s: AssemblerState, k: Key, p: GroupPacket, now: int)
    requires Valid(s) && now > 0
    ensures var r := QueuePacket(c, s, k, p, now); Valid(r) && Owned(r) == Owned(s) + multiset{p.slot}
  {
    hide QueuePacket, Owned, Valid;
    var us := QueuePacketRuns(c, s, k, p, now);
    var ts := [Admit(s, k, p, now)] + us;
    RunsKeep(c, s, ts, QueuePacket(c, s, k, p, now), now);
    TakenByQueue(Admit(s, k, p, now), us, p.slot);
  }

  lemma EvictKeeps(c: Config, s: AssemblerState, now: int)
    requires Valid(s) && now > 0
    ensures Valid(EvictStale(c, s, now)) && Owned(EvictStale(c, s, now)) == Owned(s)
  {
    hide EvictStale, Owned, Valid;
    var ts := EvictStaleRuns(c, s, 0, now);
    RunsKeep(c, s, ts, EvictStale(c, s, now), now);
    TakesNothing(ts);
  }

  lemma AcquireKeeps(w: System)
    requires Valid(w.a) && w.a.free != []
    ensures var n := |w.a.free|;
            var r := w.a.(free := w.a.free[..n - 1]);
            Valid(r) && Owned(r) + multiset{w.a.free[n - 1]} == Owned(w.a)
  {
    var n := |w.a.free|;
    assert w.a.free == w.a.free[..n - 1] + [w.a.free[n - 1]];
  }

  lemma ResetKeeps(s: AssemblerState)
    ensures Valid(Reset(s)) && Owned(Reset(s)) == Owned(s)
  {
  }

  lemma ReleaseKeeps(s: AssemblerState, slot: nat)
    requires Valid(s)
    ensures Valid(GiveBack(s, slot)) && Owned(GiveBack(s, slot)) == Owned(s) + multiset{slot}
  {
  }

  lemma NextKeeps(c: Config, w: System, e: Event)
    requires Valid(w.a) && Enabled(w, e) && e.now > 0
    ensures Valid(Next(c, w, e).a) && Everywhere(Next(c, w, e)) == Everywhere(w)
  {
    hide QueuePacket, EvictStale, Reset, GiveBack, Owned, Valid;
    match e
    case Acquire(_) => if w.a.free != [] { AcquireKeeps(w); }
    case Release(slot, _) => ReleaseKeeps(w.a, slot);
    case Queue(k, p, now) => QueueKeeps(c, w.a, k, p, now);
    case Evict(now) => EvictKeeps(c, w.a, now);
    case ResetAll(_) => ResetKeeps(w.a);
  }

  lemma CountDown(n: nat, x: nat)
    ensures multiset(seq(n, i requires 0 <= i < n => n - 1 - i))[x] == if x < n then 1 else 0
  {
    if n > 0 {
      var s := seq(n, i requires 0 <= i < n => n - 1 - i);
      assert s == [n - 1] + seq(n - 1, i requires 0 <= i < n - 1 => n - 2 - i);
      CountDown(n - 1, x);
    }
  }

  /**
   Conservation: in every reachable state the containers agree, and each of the pool's `n` slots is in
   exactly one place, once: the free list, one packet of one pending group, or the caller's hands.
   */
  lemma SlotConservation(c: Config, n: nat, ws: seq<System>, es: seq<Event>, i: nat)
    requires Trace(c, ws, es) && ws[0] == Start(n) && i < |ws|
    ensures Valid(ws[i].a)
    ensures forall x: nat :: (Owned(ws[i].a) + ws[i].held)[x] == if x < n then 1 else 0
  {
    hide Next;
    if i == 0 {
      forall x: nat ensures (Owned(ws[0].a) + ws[0].held)[x] == if x < n then 1 else 0 {
        CountDown(n, x);
      }
    } else {
      SlotConservation(c, n, ws, es, i - 1);
      NextKeeps(c, ws[i - 1], es[i - 1]);
      assert ws[i] == Next(c, ws[i - 1], es[i - 1]);
    }
  }

  // ---- bounded waiting ----

  /** The guarded steps behind one event; none for an event that leaves the groups alone or clears them. */
  lemma NextRuns(c: Config, w: System, e: Event) returns (ts: seq<Step>)
    requires e.Queue? || e.Evict?
    ensures Runs(c, w.a, ts, Next(c, w, e).a) && AllAt(ts, e.now)
  {
    match e
    case Queue(k, p, now) =>
      var us := QueuePacketRuns(c, w.a, k, p, now);
      ts := [Admit(w.a, k, p, now)] + us;
    case Evict(now) =>
      ts := EvictStaleRuns(c, w.a, 0, now);
  }

  lemma NextTimely(c: Config, w: System, e: Event)
    requires e.now > 0 && Timely(c, w.a, e.now)
    ensures Timely(c, Next(c, w, e).a, e.now)
  {
    if e.Queue? || e.Evict? {
      var ts := NextRuns(c, w, e);
      RunsWait(c, w.a, ts, Next(c, w, e).a, e.now);
    }
  }

  lemma NextYoungOrDue(c: Config, w: System, e: Event, since: int, until: int)
    requires since <= e.now && YoungOrDue(w.a, since, until)
    ensures YoungOrDue(Next(c, w, e).a, since, until)
  {
    if e.Queue? || e.Evict? {
      var ts := NextRuns(c, w, e);
      RunsYoungOrDue(c, w.a, ts, Next(c, w, e).a, e.now, since, until);
    }
  }

  lemma NextSameGroup(c: Config, w: System, e: Event, k: Key)
    requires k in w.a.groups && k in Next(c, w, e).a.groups
    ensures SameGroup(w.a.groups[k], Next(c, w, e).a.groups[k])
  {
    hide QueuePacket, EvictStale;
    match e
    case Queue(k', p, now) =>
      var us := QueuePacketRuns(c, w.a, k', p, now);
      var first := Admit(w.a, k', p, now);
      var ts := [first] + us;
      assert ts[1..] == us;
      RunsSameGroup(c, Apply(c, w.a, first), us, Next(c, w, e).a, k);
      StepSameGroup(c, w.a, first, k);
    case Evict(now) =>
      var ts := EvictStaleRuns(c, w.a, 0, now);
      RunsSameGroup(c, w.a, ts, Next(c, w, e).a, k);
    case _ =>
  }

  lemma TimelyMonotone(c: Config, s: AssemblerState, t: int, u: int)
    requires t <= u && Timely(c, s, t)
    ensures Timely(c, s, u)
  {
  }

  lemma TimelyAt(c: Config, n: nat, ws: seq<System>, es: seq<Event>, i: nat)
    requires Trace(c, ws, es) && ws[0] == Start(n) && i < |es|
    ensures Timely(c, ws[i].a, es[i].now)
  {
    hide Next;
    if i > 0 {
      TimelyAt(c, n, ws, es, i - 1);
      NextTimely(c, ws[i - 1], es[i - 1]);
      assert ws[i] == Next(c, ws[i - 1], es[i - 1]);
      TimelyMonotone(c, ws[i].a, es[i - 1].now, es[i].now);
    }
  }

  /** While a key stays pending it names one group: its arrival and its armed deadline never move. */
  lemma {:induction false} DeadlineFixed(c: Config, ws: seq<System>, es: seq<Event>, i: nat, j: nat, k: Key)
    requires Trace(c, ws, es) && i <= j < |ws|
    requires forall q :: i <= q <= j ==> k in ws[q].a.groups
    ensures ws[j].a.groups[k].arrival == ws[i].a.groups[k].arrival
    ensures ws[i].a.groups[k].deadline != 0 ==> ws[j].a.groups[k].deadline == ws[i].a.groups[k].deadline
    ensures ws[i].a.groups[k].pkts <= ws[j].a.groups[k].pkts
  {
    hide Next;
    if i < j {
      DeadlineFixed(c, ws, es, i, j - 1, k);
      assert ws[j] == Next(c, ws[j - 1], es[j - 1]);
      NextSameGroup(c, ws[j - 1], es[j - 1], k);
    }
  }

  /** `evict_stale(now)` leaves only groups due later than `now` or at most the TTL old. */
  lemma EvictionSweeps(c: Config, s: AssemblerState, now: int)
    requires Valid(s) && now > 0 && c.repairWait > 0
    ensures Fresh(c, EvictStale(c, s, now), now)
  {
    var expired := RepairExpiredKeys(s, s.deadlineOrder, now);
    RepairExpiredExact(s, s.deadlineOrder, now);
    var s1 := DropAll(s, expired, RepairTimeout, now);
    DropAllKeeps(s, expired, RepairTimeout, now);
    var us := DropAllRuns(c, s, expired, RepairTimeout, 0, now);
    RunsKeep(c, s, us, s1, now);
    var ttl := TtlExpiredKeys(c, s1, s1.groupOrder, now);
    TtlExpiredExact(c, s1, s1.groupOrder, now);
    var s2 := DropAll(s1, ttl, MarkerTimeout, now);
    DropAllKeeps(s1, ttl, MarkerTimeout, now);
    assert Fresh(c, s2, now);
    var ssrcs := SsrcsOf(ttl, SsrcsOf(expired, []));
    var ws := FlushReadyAllRuns(c, s2, ssrcs, 0, now);
    RunsWait(c, s2, ws, FlushReadyAll(c, s2, ssrcs, now), now);
  }

  lemma YoungOrDueUntil(c: Config, ws: seq<System>, es: seq<Event>, i: nat, j: nat, since: int, until: int)
    requires Trace(c, ws, es) && i < j < |ws| && since <= es[i].now
    requires YoungOrDue(ws[i + 1].a, since, until)
    ensures YoungOrDue(ws[j].a, since, until)
  {
    hide Next;
    if i + 1 < j {
      YoungOrDueUntil(c, ws, es, i, j - 1, since, until);
      assert es[i].now <= es[j - 1].now;
      NextYoungOrDue(c, ws[j - 1], es[j - 1], since, until);
      assert ws[j] == Next(c, ws[j - 1], es[j - 1]);
    }
  }

  ghost predicate ArrivedSince(s: AssemblerState, t: int) {
    forall k :: k in s.groups ==> t <= s.groups[k].arrival
  }

  /**
   Bounded waiting: a group older than the TTL when an eviction runs at `e1` is gone after any eviction
   that runs a repair wait later; whatever is then still pending arrived after `e1 - TTL`.
   */
  lemma BoundedWaiting(c: Config, n: nat, ws: seq<System>, es: seq<Event>, i: nat, j: nat)
    requires Trace(c, ws, es) && ws[0] == Start(n) && c.repairWait > 0
    requires i < j < |es| && es[i].Evict? && es[j].Evict? && es[j].now >= es[i].now + c.repairWait
    ensures ArrivedSince(ws[j + 1].a, es[i].now - c.groupTtl)
  {
    var since, until := es[i].now - c.groupTtl, es[i].now + c.repairWait;
    SlotConservation(c, n, ws, es, i);
    TimelyAt(c, n, ws, es, i);
    NextTimely(c, ws[i], es[i]);
    EvictionSweeps(c, ws[i].a, es[i].now);
    assert ws[i + 1] == Next(c, ws[i], es[i]);
    assert YoungOrDue(ws[i + 1].a, since, until);
    YoungOrDueUntil(c, ws, es, i, j, since, until);
    NextYoungOrDue(c, ws[j], es[j], since, until);
    SlotConservation(c, n, ws, es, j);
    EvictionSweeps(c, ws[j].a, es[j].now);
    assert ws[j + 1] == Next(c, ws[j], es[j]);
  }
}
