/** What reaches `on_flush` for AVC: gap-free units that continue each other's sequence numbers. */
module AssemblerOutput {
  import opened Wire
  import opened CircularSort
  import opened AssemblerModel
  import opened AssemblerSteps
  import opened AssemblerInvariants
  import opened AssemblerRuns

  /** The calls made for one SSRC, with the resets in between. */
  function SsrcLog(log: seq<Output>, ssrc: U32): seq<Output> {
    if log == [] then []
    else
      var o, init := log[|log| - 1], SsrcLog(log[..|log| - 1], ssrc);
      if o.Restarted? || o.key.ssrc == ssrc then init + [o] else init
  }

  lemma SsrcLogAppend(log: seq<Output>, o: Output, ssrc: U32)
    ensures SsrcLog(log + [o], ssrc) ==
            if o.Restarted? || o.key.ssrc == ssrc then SsrcLog(log, ssrc) + [o] else SsrcLog(log, ssrc)
  {
    assert (log + [o])[..|log|] == log;
  }

  /** Consecutive sequence numbers (mod 2^16) ending in the marker packet. */
  ghost predicate WellFlushed(o: Output)
    requires o.Flushed?
  {
    && o.packets != []
    && !o.incomplete
    && o.packets[|o.packets| - 1].marker
    && forall i :: 0 <= i < |o.packets| - 1 ==> o.packets[i + 1].num == Add16(o.packets[i].num, 1)
  }

  ghost predicate Follows(o: Output, prev: Output)
    requires o.Flushed? && prev.Flushed? && o.packets != [] && prev.packets != []
  {
    o.packets[0].num == Add16(prev.packets[|prev.packets| - 1].num, 1)
  }

  ghost predicate AllWell(l: seq<Output>) {
    forall i :: 0 <= i < |l| && l[i].Flushed? ==> WellFlushed(l[i])
  }

  /** Each flush directly after another flush continues where that one stopped. */
  ghost predicate Linked(l: seq<Output>)
    requires AllWell(l)
  {
    forall i :: 0 < i < |l| && l[i].Flushed? && l[i - 1].Flushed? ==> Follows(l[i], l[i - 1])
  }

  function LastNum(o: Output): U16
    requires o.Flushed? && o.packets != []
  {
    o.packets[|o.packets| - 1].num
  }

  function Anchor(s: AssemblerState, ssrc: U32): Option<U16> {
    if ssrc in s.lastMarker then Some(s.lastMarker[ssrc]) else None
  }

  /** The log is linked, and the anchor is the end of its last entry if that is a flush. */
  ghost predicate LogChained(l: seq<Output>, anchor: Option<U16>) {
    && AllWell(l) && Linked(l)
    && (l != [] && l[|l| - 1].Flushed? ==> anchor == Some(LastNum(l[|l| - 1])))
  }

  ghost predicate Chained(s: AssemblerState, ssrc: U32) {
    LogChained(SsrcLog(s.log, ssrc), Anchor(s, ssrc))
  }

  lemma LinkFlush(l: seq<Output>, anchor: Option<U16>, o: Output)
    requires LogChained(l, anchor) && o.Flushed? && WellFlushed(o)
    requires anchor.Some? ==> o.packets[0].num == Add16(anchor.value, 1)
    ensures LogChained(l + [o], Some(LastNum(o)))
  {
  }

  lemma LinkOther(l: seq<Output>, anchor: Option<U16>, o: Output, anchor': Option<U16>)
    requires LogChained(l, anchor) && !o.Flushed?
    ensures LogChained(l + [o], anchor')
  {
  }

  lemma Successor(a: U16, b: U16)
    requires Sub16(b, a) <= 1 && a != b
    ensures b == Add16(a, 1)
  {
  }

  lemma GapFreeConsecutive(p: seq<GroupPacket>)
    requires GapFree(p) && DistinctNums(p)
    ensures forall i :: 0 <= i < |p| - 1 ==> p[i + 1].num == Add16(p[i].num, 1)
  {
    forall i | 0 <= i < |p| - 1 ensures p[i + 1].num == Add16(p[i].num, 1) {
      Successor(p[i].num, p[i + 1].num);
    }
  }

  /** The entry that flushing `k` appends to the log. */
  ghost function FlushOutput(s: AssemblerState, k: Key): Output
    requires k in s.groups
  {
    var p := SortedPackets(s.groups[k].pkts);
    Flushed(k, p, !GapFree(p))
  }

  lemma FlushIsWell(s: AssemblerState, k: Key)
    requires Valid(s) && k in s.groups && Complete(s, k)
    ensures WellFlushed(FlushOutput(s, k))
    ensures LastMarkerOf(SortedPackets(s.groups[k].pkts)) == Some(LastNum(FlushOutput(s, k)))
    ensures k.ssrc in s.lastMarker ==> FlushOutput(s, k).packets[0].num == Add16(s.lastMarker[k.ssrc], 1)
  {
    hide SortedPackets;
    SortedPacketsDistinct(s.groups[k].pkts);
    GapFreeConsecutive(SortedPackets(s.groups[k].pkts));
  }

  lemma FlushChained(s: AssemblerState, k: Key, now: int, ssrc: U32)
    requires Valid(s) && k in s.groups && Complete(s, k) && Chained(s, ssrc)
    ensures Chained(Flush(s, k, now), ssrc)
  {
    hide SortedPackets, LastMarkerOf, Complete, LogChained, WellFlushed, SsrcLog, Valid;
    FlushIsWell(s, k);
    SsrcLogAppend(s.log, FlushOutput(s, k), ssrc);
    if k.ssrc == ssrc {
      LinkFlush(SsrcLog(s.log, ssrc), Anchor(s, ssrc), FlushOutput(s, k));
    }
  }

  lemma DropChained(s: AssemblerState, k: Key, reason: Reason, now: int, ssrc: U32)
    requires k in s.groups && Chained(s, ssrc)
    ensures Chained(Drop(s, k, reason, now), ssrc)
  {
    hide SortedPackets, LastMarkerOf, LogChained, SsrcLog;
    var r := Drop(s, k, reason, now);
    var o := r.log[|s.log|];
    SsrcLogAppend(s.log, o, ssrc);
    if k.ssrc == ssrc {
      LinkOther(SsrcLog(s.log, ssrc), Anchor(s, ssrc), o, Anchor(r, ssrc));
    }
  }

  lemma StepChained(c: Config, s: AssemblerState, t: Step, ssrc: U32)
    requires c.codec == Avc && Valid(s) && Legal(c, s, t) && Chained(s, ssrc)
    ensures Chained(Apply(c, s, t), ssrc)
  {
    hide Flush, Drop, LogChained, SsrcLog;
    match t
    case SFlush(k, now) => FlushChained(s, k, now, ssrc);
    case SDrop(k, reason, now) => DropChained(s, k, reason, now, ssrc);
    case _ =>
  }

  lemma RunsChained(c: Config, s: AssemblerState, ts: seq<Step>, r: AssemblerState, now: int, ssrc: U32)
    requires c.codec == Avc && Runs(c, s, ts, r) && AllAt(ts, now) && now > 0 && Valid(s) && Chained(s, ssrc)
    ensures Chained(r, ssrc)
    decreases ts
  {
    if ts != [] {
      StepChained(c, s, ts[0], ssrc);
      StepKeepsValid(c, s, ts[0]);
      RunsChained(c, Apply(c, s, ts[0]), ts[1..], r, now, ssrc);
    }
  }

  lemma NextChained(c: Config, w: System, e: Event, ssrc: U32)
    requires c.codec == Avc && Valid(w.a) && e.now > 0 && Chained(w.a, ssrc)
    ensures Chained(Next(c, w, e).a, ssrc)
  {
    hide QueuePacket, EvictStale, LogChained, SsrcLog;
    if e.Queue? || e.Evict? {
      var ts := NextRuns(c, w, e);
      RunsChained(c, w.a, ts, Next(c, w, e).a, e.now, ssrc);
    } else if e.ResetAll? {
      SsrcLogAppend(w.a.log, Restarted, ssrc);
      LinkOther(SsrcLog(w.a.log, ssrc), Anchor(w.a, ssrc), Restarted, None);
    }
  }

  /** In every reachable state of an AVC assembler the flushes of every SSRC are gap-free and linked. */
  lemma FlushesChain(c: Config, n: nat, ws: seq<System>, es: seq<Event>, i: nat, ssrc: U32)
    requires c.codec == Avc && Trace(c, ws, es) && ws[0] == Start(n) && i < |ws|
    ensures Chained(ws[i].a, ssrc)
  {
    hide Next;
    if i > 0 {
      FlushesChain(c, n, ws, es, i - 1, ssrc);
      SlotConservation(c, n, ws, es, i - 1);
      NextChained(c, ws[i - 1], es[i - 1], ssrc);
      assert ws[i] == Next(c, ws[i - 1], es[i - 1]);
    }
  }

  /** The sequence numbers of a stretch of flushes, end to end. */
  ghost function Nums(l: seq<Output>): seq<U16>
    requires forall i :: 0 <= i < |l| ==> l[i].Flushed?
  {
    if l == [] then []
    else
      var p := l[|l| - 1].packets;
      Nums(l[..|l| - 1]) + seq(|p|, i requires 0 <= i < |p| => p[i].num)
  }

  ghost predicate Consecutive(ns: seq<U16>) {
    forall i :: 0 < i < |ns| ==> ns[i] == Add16(ns[i - 1], 1)
  }

  lemma LinkedConsecutive(l: seq<Output>)
    requires forall i :: 0 <= i < |l| ==> l[i].Flushed?
    requires AllWell(l) && Linked(l)
    ensures Consecutive(Nums(l))
    ensures l != [] ==> Nums(l) != [] && Nums(l)[|Nums(l)| - 1] == LastNum(l[|l| - 1])
  {
    if l != [] {
      var n := |l| - 1;
      LinkedConsecutive(l[..n]);
      assert n > 0 ==> Follows(l[n], l[n - 1]);
    }
  }

  /**
   Gaplessness: take any stretch of an AVC SSRC's log without a drop or reset. The sequence numbers of all
   packets flushed in it form one run of consecutive numbers mod 2^16.
   */
  lemma GaplessBetweenDrops(c: Config, n: nat, ws: seq<System>, es: seq<Event>, i: nat, ssrc: U32, from: nat, to: nat)
    requires c.codec == Avc && Trace(c, ws, es) && ws[0] == Start(n) && i < |ws|
    requires from <= to <= |SsrcLog(ws[i].a.log, ssrc)|
    requires forall j :: from <= j < to ==> SsrcLog(ws[i].a.log, ssrc)[j].Flushed?
    ensures Consecutive(Nums(SsrcLog(ws[i].a.log, ssrc)[from..to]))
  {
    FlushesChain(c, n, ws, es, i, ssrc);
    var l := SsrcLog(ws[i].a.log, ssrc);
    var m := l[from..to];
    assert forall j :: 0 <= j < |m| ==> m[j] == l[from + j];
    assert Linked(m) by {
      forall j | 0 < j < |m| && m[j].Flushed? && m[j - 1].Flushed? ensures Follows(m[j], m[j - 1]) {
        assert m[j] == l[from + j] && m[j - 1] == l[from + j - 1];
      }
    }
    LinkedConsecutive(m);
  }
}
