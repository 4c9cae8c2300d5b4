/** Where reassembled NALs lie in the output, for every list of payloads: src/media/nalu.cpp:16-104. */
module NaluLayout {
  import opened Wire
  import opened Bytes
  import opened Nalu

  ghost predicate Placed(out: Bytes, r: Range) {
    4 <= r.off && r.off + r.len <= |out| && out[r.off - 4..r.off] == START_CODE
  }

  /** Each NAL with its start code ends before the next one's start code. */
  ghost predicate Ordered(ranges: seq<Range>) {
    forall i, j :: 0 <= i < j < |ranges| ==> ranges[i].off + ranges[i].len + 4 <= ranges[j].off
  }

  ghost predicate Layout(out: Bytes, ranges: seq<Range>) {
    Ordered(ranges) && forall i :: 0 <= i < |ranges| ==> Placed(out, ranges[i])
  }

  // ---- when the layout is good ----

  /** Whether a fragment chain is open, and whether other NALs arrived inside it. */
  datatype Phase = Closed | Open(interrupted: bool) | Broken

  function NextPhase(p: Phase, a: Action): Phase {
    match a
    case Skip => p
    case Emit(nals) => if p.Open? && nals != [] then Open(true) else p
    case Begin(_) => if p == Broken then Broken else Open(false)
    case More(_, end) =>
      if !p.Open? || !end then p else if p.interrupted then Broken else Closed
  }

  function PhaseAfter(c: Codec, pays: seq<Bytes>): Phase {
    if pays == [] then Closed else NextPhase(PhaseAfter(c, pays[..|pays| - 1]), ActionOf(c, pays[|pays| - 1]))
  }

  /** Some chain was interrupted by whole NALs and then ended, by its last fragment or by the list. */
  predicate Tangled(c: Codec, pays: seq<Bytes>) {
    var p := PhaseAfter(c, pays);
    p == Broken || p == Open(true)
  }

  ghost predicate Fits(o: Output, p: Phase) {
    match p
    case Closed => o.open.None? && Layout(o.out, o.ranges)
    case Open(interrupted) =>
      && o.open.Some?
      && (var x := o.open.value;
          && o.out[x - 4..x] == START_CODE
          && (if interrupted then Layout(o.out, o.ranges) && o.ranges != [] && o.ranges[|o.ranges| - 1].off > x
              else Layout(o.out[..x - 4], o.ranges)))
    case Broken => !Ordered(o.ranges)
  }

  lemma LayoutGrows(out: Bytes, more: Bytes, ranges: seq<Range>)
    requires out <= more && Layout(out, ranges)
    ensures Layout(more, ranges)
  {
    forall i | 0 <= i < |ranges| ensures Placed(more, ranges[i]) {
      var r := ranges[i];
      assert Placed(out, r);
      assert more[r.off - 4..r.off] == out[r.off - 4..r.off];
    }
  }

  /** A range after all the others. */
  lemma LayoutExtends(out: Bytes, more: Bytes, ranges: seq<Range>, r: Range)
    requires Layout(out, ranges) && out <= more && |out| + 4 <= r.off && Placed(more, r)
    ensures Layout(more, ranges + [r])
  {
    LayoutGrows(out, more, ranges);
    var all := ranges + [r];
    forall i, j | 0 <= i < j < |all| ensures all[i].off + all[i].len + 4 <= all[j].off {
      if j == |ranges| {
        assert Placed(out, ranges[i]);
      }
    }
  }

  lemma {:induction false} AppendLayout(o: Output, nals: seq<Bytes>)
    requires Layout(o.out, o.ranges)
    ensures Layout(Append(o, nals).out, Append(o, nals).ranges)
  {
    hide Layout, Append;
    if nals == [] {
      NothingSent(Avc, o.(open := None));
      AppendIgnoresOpen(o, []);
    } else {
      var init, n := nals[..|nals| - 1], nals[|nals| - 1];
      AppendLayout(o, init);
      AppendOne(o, init, n);
      assert nals == init + [n];
      var w := Append(o, init);
      AppendedPlaced(w.out, n);
      LayoutExtends(w.out, w.out + START_CODE + n, w.ranges, Range(|w.out| + 4, |n|));
    }
  }

  lemma AppendedPlaced(out: Bytes, n: Bytes)
    ensures out <= out + START_CODE + n && Placed(out + START_CODE + n, Range(|out| + 4, |n|))
  {
    assert (out + START_CODE + n)[|out|..|out| + 4] == START_CODE;
  }

  lemma AppendIgnoresOpen(o: Output, nals: seq<Bytes>)
    ensures Append(o, nals) == Append(o.(open := None), nals).(open := o.open)
  {
  }

  lemma AppendShape(o: Output, nals: seq<Bytes>)
    ensures var w := Append(o, nals);
      && o.out <= w.out && o.ranges <= w.ranges && w.open == o.open
      && (nals != [] ==> w.ranges != [] && w.ranges[|w.ranges| - 1].off > |o.out|)
  {
  }

  lemma DisorderPersists(ranges: seq<Range>, more: seq<Range>)
    requires !Ordered(ranges) && ranges <= more
    ensures !Ordered(more)
  {
    var i, j :| 0 <= i < j < |ranges| && !(ranges[i].off + ranges[i].len + 4 <= ranges[j].off);
    assert more[i] == ranges[i] && more[j] == ranges[j];
  }

  lemma StepFits(o: Output, p: Phase, a: Action)
    requires Fits(o, p)
    ensures Fits(Act(o, a), NextPhase(p, a))
  {
    hide Append;
    match a
    case Skip =>
    case Emit(nals) => EmitFits(o, p, nals);
    case Begin(head) => BeginFits(o, p, head);
    case More(data, end) => MoreFits(o, p, data, end);
  }

  lemma EmitFits(o: Output, p: Phase, nals: seq<Bytes>)
    requires Fits(o, p)
    ensures Fits(Append(o, nals), NextPhase(p, Emit(nals)))
  {
    hide Append, Layout, Ordered;
    var w := Append(o, nals);
    AppendShape(o, nals);
    match p
    case Broken => DisorderPersists(o.ranges, w.ranges);
    case Closed => AppendLayout(o, nals);
    case Open(interrupted) =>
      var x := o.open.value;
      assert w.out[x - 4..x] == o.out[x - 4..x];
      if nals == [] {
        NothingSent(Avc, o.(open := None));
        AppendIgnoresOpen(o, nals);
      } else {
        if !interrupted {
          LayoutGrows(o.out[..x - 4], o.out, o.ranges);
        }
        AppendLayout(o, nals);
      }
  }

  lemma BeginFits(o: Output, p: Phase, head: Bytes)
    requires Fits(o, p)
    ensures Fits(Act(o, Begin(head)), NextPhase(p, Begin(head)))
  {
    hide Layout, Ordered;
    var w := Act(o, Begin(head));
    if p != Broken {
      if p == Open(false) {
        LayoutGrows(o.out[..o.open.value - 4], o.out, o.ranges);
      }
      assert w.out[|o.out|..|o.out| + 4] == START_CODE;
      assert w.out[..|o.out|] == o.out;
    }
  }

  lemma MoreFits(o: Output, p: Phase, data: Bytes, end: bool)
    requires Fits(o, p)
    ensures Fits(Act(o, More(data, end)), NextPhase(p, More(data, end)))
  {
    hide Layout, Ordered;
    var w := Act(o, More(data, end));
    if p == Broken {
      DisorderPersists(o.ranges, w.ranges);
    } else if p.Open? {
      var x := o.open.value;
      assert w.out[x - 4..x] == o.out[x - 4..x] && w.out[..x - 4] == o.out[..x - 4];
      if !end {
        if p.interrupted {
          LayoutGrows(o.out, w.out, o.ranges);
        }
      } else if p.interrupted {
        Overtaken(o.ranges, Range(x, |w.out| - x));
      } else {
        LayoutExtends(o.out[..x - 4], w.out, o.ranges, Range(x, |w.out| - x));
      }
    }
  }

  lemma Overtaken(ranges: seq<Range>, r: Range)
    requires ranges != [] && ranges[|ranges| - 1].off > r.off
    ensures !Ordered(ranges + [r])
  {
    var all := ranges + [r];
    assert all[|ranges| - 1].off + all[|ranges| - 1].len + 4 > all[|ranges|].off;
  }

  lemma {:induction false} RunFits(c: Codec, o: Output, pays: seq<Bytes>)
    requires Fits(o, Closed)
    ensures Fits(Run(c, o, pays), PhaseAfter(c, pays))
  {
    hide Fits, Act, NextPhase, ActionOf;
    if pays != [] {
      RunFits(c, o, pays[..|pays| - 1]);
      StepFits(Run(c, o, pays[..|pays| - 1]), PhaseAfter(c, pays[..|pays| - 1]), ActionOf(c, pays[|pays| - 1]));
    }
  }

  /**
   * The recorded ranges are in bounds, in order, disjoint and each behind a start code exactly when no
   * interrupted chain was completed or left open at the end of the list.
   */
  lemma LayoutIffUntangled(c: Codec, pays: seq<Bytes>, out: Bytes, ranges: seq<Range>)
    requires Layout(out, ranges)
    ensures var w := Reassemble(c, pays, out, ranges); Layout(w.out, w.ranges) <==> !Tangled(c, pays)
  {
    hide Run, PhaseAfter;
    var o := Buffer(out, ranges, None);
    RunFits(c, o, pays);
    var w, p := Run(c, o, pays), PhaseAfter(c, pays);
    if p == Open(true) {
      var last := |w.ranges| - 1;
      assert !Placed(w.out[..w.open.value - 4], w.ranges[last]);
    }
  }

  /** A single NAL that overtakes an open chain: its range lies beyond the truncated output. */
  lemma TangledExample()
    ensures var w := Reassemble(Avc, [[0x7c, 0x85, 1], [0x61, 2]], [], []); !Layout(w.out, w.ranges)
  {
    var begin: Bytes, single: Bytes := [0x7c, 0x85, 1], [0x61, 2];
    var one, both: seq<Bytes> := [begin], [begin, single];
    assert both[..1] == one && one[..0] == [];
    assert AvcAction(begin).Begin? && AvcAction(single) == Emit([single]);
    assert PhaseAfter(Avc, one) == Open(false);
    hide PhaseAfter, Reassemble;
    assert Tangled(Avc, both);
    LayoutIffUntangled(Avc, both, [], []);
  }

  ghost predicate HoldsNal(out: Bytes, r: Range, n: Bytes) {
    r.off + r.len <= |out| && out[r.off..r.off + r.len] == n
  }

  /** The i-th recorded range holds the i-th NAL. */
  lemma {:induction false} RangesHoldNals(o: Output, nals: seq<Bytes>, i: nat)
    requires i < |nals|
    ensures var w := Append(o, nals);
      && |w.ranges| == |o.ranges| + |nals|
      && HoldsNal(w.out, w.ranges[|o.ranges| + i], nals[i])
  {
    var init, n := nals[..|nals| - 1], nals[|nals| - 1];
    AppendOne(o, init, n);
    assert nals == init + [n];
    assert |Append(o, init).ranges| == |o.ranges| + |init|;
    hide Append;
    var v, w := Append(o, init), Append(o, nals);
    if i == |init| {
      assert w.out[|v.out| + 4..] == n;
    } else {
      RangesHoldNals(o, init, i);
      var r := v.ranges[|o.ranges| + i];
      assert w.out[r.off..r.off + r.len] == v.out[r.off..r.off + r.len];
    }
  }

  /** From index `base` on, the ranges hold exactly `nals`. */
  ghost predicate HoldsNals(w: Output, base: nat, nals: seq<Bytes>) {
    && |w.ranges| == base + |nals|
    && forall i :: 0 <= i < |nals| ==> HoldsNal(w.out, w.ranges[base + i], nals[i])
  }

  lemma AppendHolds(o: Output, nals: seq<Bytes>)
    ensures HoldsNals(Append(o, nals), |o.ranges|, nals)
  {
    var w := Append(o, nals);
    assert |w.ranges| == |o.ranges| + |nals|;
    hide Append;
    forall i | 0 <= i < |nals|
      ensures HoldsNal(w.out, w.ranges[|o.ranges| + i], nals[i])
    {
      RangesHoldNals(o, nals, i);
    }
  }

  /** What any prefix of properly sent units yields is laid out well and holds the complete NALs. */
  lemma PrefixLayout(c: Codec, us: seq<Unit>, k: nat, out: Bytes, ranges: seq<Range>)
    requires (forall u :: u in us ==> Sendable(c, u)) && k <= |AllPayloads(c, us)| && Layout(out, ranges)
    ensures var w := Reassemble(c, AllPayloads(c, us)[..k], out, ranges);
      Layout(w.out, w.ranges) && HoldsNals(w, |ranges|, CompleteNals(c, us, k))
  {
    hide Layout, Reassemble, Sendable, CompleteNals, AllPayloads, Append, HoldsNals;
    var o := Buffer(out, ranges, None);
    PrefixReassembles(c, us, k, out, ranges);
    AppendLayout(o, CompleteNals(c, us, k));
    AppendHolds(o, CompleteNals(c, us, k));
  }

  // ---- payloads that are passed over ----

  /** The first unit of an aggregate is cut off, empty or longer than what is left. */
  predicate NoUnit(pay: Bytes, pos: nat) {
    pos + 2 > |pay| || (var size := pay[pos] as nat * 256 + pay[pos + 1] as nat; size == 0 || pos + 2 + size > |pay|)
  }

  ghost predicate Ignored(c: Codec, pay: Bytes) {
    forall o: Output :: Act(o, ActionOf(c, pay)) == o
  }

  lemma UnitsEmptyIff(pay: Bytes, pos: nat)
    ensures UnitsFrom(pay, pos) == [] <==> NoUnit(pay, pos)
  {
  }

  /** An action changes no output if and only if it is none, or appends nothing. */
  lemma IdleIff(a: Action)
    ensures (forall o: Output :: Act(o, a) == o) <==>
      a.Skip? || a == Emit([]) || a == More([], false)
  {
    var shut: Output, open: Output := Buffer([], [], None), Buffer([0, 0, 0, 1], [], Some(4));
    if forall o: Output :: Act(o, a) == o {
      assert Act(shut, a) == shut && Act(open, a) == open;
      if a.Emit? {
        AppendedRanges(shut, a.nals);
      }
    }
  }

  lemma AppendedRanges(o: Output, nals: seq<Bytes>)
    ensures |Append(o, nals).ranges| == |o.ranges| + |nals|
  {
  }

  /** An HEVC payload is passed over exactly if it is too short for its kind, or an aggregate without a whole unit. */
  lemma HevcIgnoredIff(pay: Bytes)
    ensures Ignored(Hevc, pay) <==>
      || |pay| < 2
      || (var t := pay[0] / 2 % 64;
          if t == 48 then NoUnit(pay, 4) else if t == 49 then |pay| < 6 else |pay| < 4)
  {
    hide UnitsFrom;
    IdleIff(ActionOf(Hevc, pay));
    UnitsEmptyIff(pay, 4);
  }

  /** An H.264 payload so, or if its type is none of those handled, or it only marks the configuration. */
  lemma AvcIgnoredIff(pay: Bytes)
    ensures Ignored(Avc, pay) <==>
      || pay == [] || pay[0] == 0x92
      || (var t, off := pay[0] % 32, if pay[0] % 32 == 29 then 4 else 2;
          if t == 28 || t == 29 then |pay| < off || (|pay| == off && pay[1] < 0x40)
          else if t == 24 then NoUnit(pay, 3)
          else t == 0 || t > 23 || |pay| < 2)
  {
    hide UnitsFrom;
    IdleIff(ActionOf(Avc, pay));
    UnitsEmptyIff(pay, 3);
  }
}
