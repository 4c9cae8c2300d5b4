/** Access units with NALs that do not survive: tools/synth.cpp:135-169 against src/media/nalu.cpp:16-104. */
module NalAccessUnit {
  import opened Wire
  import opened Bytes
  import opened Nalu
  import opened NaluLayout
  import opened NalPacketiser

  ghost predicate AllPackable(c: Codec, ns: seq<Sent>, mtu: nat) {
    forall x :: x in ns ==> Packable(c, x.nal, mtu)
  }

  /** Delivered in one packet, delivered in a chain, or one packet that the receiver takes for something else. */
  datatype Fate = Whole | Chained | Acts(a: Action)

  function FateOf(c: Codec, x: Sent, mtu: nat): Fate
    requires Packable(c, x.nal, mtu)
  {
    if Deliverable(c, x.nal, mtu) then (if UnitFor(c, x.nal, mtu, x.donl).Chain? then Chained else Whole)
    else
      UndeliveredIsOne(c, x, mtu);
      Acts(ActionOf(c, Packets(c, x.nal, mtu, x.donl)[0]))
  }

  lemma UndeliveredIsOne(c: Codec, x: Sent, mtu: nat)
    requires Packable(c, x.nal, mtu) && !Deliverable(c, x.nal, mtu)
    ensures var p := Packets(c, x.nal, mtu, x.donl); |p| == 1 && p == [p[0]]
  {
    hide FragmentPayload;
    if c == Hevc && !ParameterSet(x.nal) && |x.nal| + 4 > mtu {
      SingleFragment(x.nal, mtu, x.donl);
    }
  }

  function Effect(o: Output, f: Fate, n: Bytes): Output {
    match f
    case Whole => Append(o, [n])
    case Chained => Append(o, [n]).(open := None)
    case Acts(a) => Act(o, a)
  }

  /** What the packets of one NAL do to the output, whatever is open. */
  lemma NalEffect(c: Codec, o: Output, x: Sent, mtu: nat)
    requires Packable(c, x.nal, mtu)
    ensures Run(c, o, Packets(c, x.nal, mtu, x.donl)) == Effect(o, FateOf(c, x, mtu), x.nal)
  {
    hide Run, Act, Append, Packets, Deliverable, ActionOf;
    var n := x.nal;
    if Deliverable(c, n, mtu) {
      SentAsUnit(c, n, mtu, x.donl);
      DeliveredEffect(c, o, UnitFor(c, n, mtu, x.donl), n);
    } else {
      UndeliveredIsOne(c, x, mtu);
      RunOne(c, o, Packets(c, n, mtu, x.donl)[0]);
    }
  }

  /** In HEVC a NAL of `mtu - 3` bytes leaves a chain open that holds it and that nothing ends. */
  lemma OpenerFate(x: Sent, mtu: nat)
    requires mtu > 5 && |x.nal| == mtu - 3 && !ParameterSet(x.nal)
    ensures FateOf(Hevc, x, mtu) == Acts(Begin(x.nal))
  {
    hide HevcPackets, HevcAction;
    SingleFragment(x.nal, mtu, x.donl);
  }

  lemma DeliveredEffect(c: Codec, o: Output, u: Unit, n: Bytes)
    requires Sendable(c, u) && NalsOf(u) == [n]
    ensures Run(c, o, Payloads(c, u)) == Effect(o, if u.Chain? then Chained else Whole, n)
  {
    hide Run, ActionOf, Append, Sendable, ChainPayloads;
    if u.Chain? {
      ChainDelivers(c, o, u.nal, u.fragments);
    } else {
      RunOne(c, o, Payloads(c, u)[0]);
      if u.Single? {
        SingleActs(c, u);
      } else {
        AggregateActs(c, u);
      }
    }
  }

  /** A NAL cut short leaves no trace of itself, and ends a chain left open before it. */
  lemma NalCut(c: Codec, o: Output, x: Sent, mtu: nat, k: nat)
    requires Packable(c, x.nal, mtu) && k < |Packets(c, x.nal, mtu, x.donl)|
    ensures Finish(Run(c, o, Packets(c, x.nal, mtu, x.donl)[..k]))
         == if k == 0 then Finish(o) else Buffer(o.out, o.ranges, None)
  {
    hide ActionOf, Fragments, Cut, Act, Sendable;
    var p := Packets(c, x.nal, mtu, x.donl);
    if k == 0 {
      assert p[..k] == [];
    } else {
      if !Deliverable(c, x.nal, mtu) {
        UndeliveredIsOne(c, x, mtu);
      }
      var u := UnitFor(c, x.nal, mtu, x.donl);
      SentAsUnit(c, x.nal, mtu, x.donl);
      ChainPrefix(c, u.nal, u.fragments, k, |u.fragments|);
      ChainOpen(c, o, u.nal, u.fragments, k);
      ChainedHeader(c, u);
      assert (o.out + START_CODE + u.nal[..HeaderSize(c)] + Joined(u.fragments[..k]))[..|o.out|] == o.out;
    }
  }

  lemma ChainedHeader(c: Codec, u: Unit)
    requires u.Chain? && Sendable(c, u)
    ensures |u.nal| >= HeaderSize(c)
  {
  }

  // ---- the whole access unit, cut anywhere ----

  /** The output after the first `k` packets, effect by effect. */
  function Outcome(c: Codec, o: Output, ns: seq<Sent>, mtu: nat, k: nat): Output
    requires AllPackable(c, ns, mtu)
    decreases ns
  {
    if ns == [] || k == 0 then Finish(o)
    else
      var p := |Packets(c, ns[0].nal, mtu, ns[0].donl)|;
      if k < p then Buffer(o.out, o.ranges, None)
      else Outcome(c, Effect(o, FateOf(c, ns[0], mtu), ns[0].nal), ns[1..], mtu, k - p)
  }

  lemma {:induction false} OutcomeIs(c: Codec, o: Output, ns: seq<Sent>, mtu: nat, k: nat)
    requires AllPackable(c, ns, mtu) && k <= |AllPackets(c, ns, mtu)|
    ensures Finish(Run(c, o, AllPackets(c, ns, mtu)[..k])) == Outcome(c, o, ns, mtu, k)
    decreases ns
  {
    hide Packets, Run, Finish, Effect, FateOf, Packable;
    var all := AllPackets(c, ns, mtu);
    if ns == [] || k == 0 {
      assert all[..k] == [];
      NothingRun(c, o);
    } else {
      var p, rest := Packets(c, ns[0].nal, mtu, ns[0].donl), AllPackets(c, ns[1..], mtu);
      if k < |p| {
        assert all[..k] == p[..k];
        NalCut(c, o, ns[0], mtu, k);
      } else {
        assert all[..k] == p + rest[..k - |p|];
        RunMore(c, o, p, rest[..k - |p|]);
        NalEffect(c, o, ns[0], mtu);
        OutcomeIs(c, Effect(o, FateOf(c, ns[0], mtu), ns[0].nal), ns[1..], mtu, k - |p|);
      }
    }
  }

  // ---- what is recovered ----

  /** The NALs recorded so far, how many lie before a chain left open, and what that chain holds. */
  datatype Tally = Tally(nals: seq<Bytes>, kept: nat, open: Option<Bytes>)

  /** A chain swallows the whole NALs that arrive inside it. */
  function CountAction(t: Tally, a: Action): Tally {
    match a
    case Skip => t
    case Emit(nals) =>
      if t.open.None? then Tally(t.nals + nals, |t.nals| + |nals|, None)
      else Tally(t.nals + nals, t.kept, Some(t.open.value + AnnexB(nals)))
    case Begin(head) => Tally(t.nals, |t.nals|, Some(head))
    case More(data, end) =>
      if t.open.None? then t
      else if end then Tally(t.nals + [t.open.value + data], |t.nals| + 1, None)
      else Tally(t.nals, t.kept, Some(t.open.value + data))
  }

  function Count(t: Tally, f: Fate, n: Bytes): Tally {
    match f
    case Whole => CountAction(t, Emit([n]))
    case Chained => Tally(t.nals + [n], |t.nals| + 1, None)
    case Acts(a) => CountAction(t, a)
  }

  function TallyOf(c: Codec, t: Tally, ns: seq<Sent>, mtu: nat, k: nat): Tally
    requires AllPackable(c, ns, mtu)
    decreases ns
  {
    if ns == [] || k == 0 then t
    else
      var p := |Packets(c, ns[0].nal, mtu, ns[0].donl)|;
      if k < p then Tally(t.nals, |t.nals|, None)
      else TallyOf(c, Count(t, FateOf(c, ns[0], mtu), ns[0].nal), ns[1..], mtu, k - p)
  }

  ghost predicate Matches(o: Output, base: nat, t: Tally) {
    && HoldsNals(o, base, t.nals)
    && t.kept <= |t.nals| && (t.open.Some? <==> o.open.Some?) && (t.open.None? ==> t.kept == |t.nals|)
    && (t.open.Some? ==>
        && o.out[o.open.value..] == t.open.value
        && (forall j :: base <= j < base + t.kept ==> o.ranges[j].off + o.ranges[j].len <= o.open.value - 4)
        && (forall j :: base + t.kept <= j < |o.ranges| ==> o.ranges[j].off > o.open.value))
  }

  lemma StillHolds(out: Bytes, more: Bytes, r: Range, n: Bytes)
    requires HoldsNal(out, r, n) && out <= more
    ensures HoldsNal(more, r, n)
  {
    assert more[r.off..r.off + r.len] == out[r.off..r.off + r.len];
  }

  lemma HoldsStill(o: Output, w: Output, base: nat, nals: seq<Bytes>)
    requires HoldsNals(o, base, nals) && o.out <= w.out && w.ranges == o.ranges
    ensures HoldsNals(w, base, nals)
  {
    hide HoldsNal;
    forall i | 0 <= i < |nals| ensures HoldsNal(w.out, w.ranges[base + i], nals[i]) {
      StillHolds(o.out, w.out, o.ranges[base + i], nals[i]);
    }
  }

  lemma HoldsMore(o: Output, base: nat, nals: seq<Bytes>, more: seq<Bytes>)
    requires HoldsNals(o, base, nals)
    ensures HoldsNals(Append(o, more), base, nals + more)
  {
    hide Append, HoldsNal;
    var w := Append(o, more);
    AppendGrows(o, more);
    forall i | 0 <= i < |nals + more| ensures HoldsNal(w.out, w.ranges[base + i], (nals + more)[i]) {
      if i < |nals| {
        StillHolds(o.out, w.out, o.ranges[base + i], nals[i]);
      } else {
        RangesHoldNals(o, more, i - |nals|);
      }
    }
  }

  lemma AppendGrows(o: Output, more: seq<Bytes>)
    ensures var w := Append(o, more);
      && o.out <= w.out && o.ranges <= w.ranges && |w.ranges| == |o.ranges| + |more| && w.open == o.open
      && w.out == o.out + AnnexB(more)
  {
  }

  lemma {:induction false} AppendedBehind(base: nat, nals: seq<Bytes>, i: nat)
    requires i < |nals|
    ensures RangesAt(base, nals)[i].off >= base + 4
  {
    if i < |nals| - 1 {
      AppendedBehind(base, nals[..|nals| - 1], i);
    }
  }

  lemma EmitMatches(o: Output, base: nat, t: Tally, nals: seq<Bytes>)
    requires Matches(o, base, t)
    ensures Matches(Append(o, nals), base, CountAction(t, Emit(nals)))
  {
    hide HoldsNals, AnnexB, RangesAt;
    HoldsMore(o, base, t.nals, nals);
    HoldsLength(o, base, t.nals);
    var w := Append(o, nals);
    if o.open.Some? {
      var x := o.open.value;
      assert w.out[x..] == o.out[x..] + AnnexB(nals);
      forall j | |o.ranges| <= j < |w.ranges| ensures w.ranges[j].off > x {
        AppendedBehind(|o.out|, nals, j - |o.ranges|);
      }
    }
  }

  lemma BeginMatches(o: Output, base: nat, t: Tally, head: Bytes)
    requires Matches(o, base, t)
    ensures Matches(Act(o, Begin(head)), base, CountAction(t, Begin(head)))
  {
    hide HoldsNals;
    var w := Act(o, Begin(head));
    HoldsLength(o, base, t.nals);
    HoldsStill(o, w, base, t.nals);
    assert w.out[w.open.value..] == head;
    forall j | base <= j < base + |t.nals| ensures w.ranges[j].off + w.ranges[j].len <= w.open.value - 4 {
      HoldsAt(o, base, t.nals, j - base);
    }
  }

  lemma MoreMatches(o: Output, base: nat, t: Tally, data: Bytes, end: bool)
    requires Matches(o, base, t)
    ensures Matches(Act(o, More(data, end)), base, CountAction(t, More(data, end)))
  {
    hide HoldsNals;
    if o.open.Some? {
      var x, out := o.open.value, o.out + data;
      var held: Output := Buffer(out, o.ranges, o.open);
      HoldsLength(o, base, t.nals);
      HoldsStill(o, held, base, t.nals);
      assert out[x..] == t.open.value + data;
      if end {
        HoldsLast(held, base, t.nals, x);
      }
    }
  }

  /** Closing a chain records everything from its start on. */
  lemma HoldsLast(o: Output, base: nat, nals: seq<Bytes>, x: nat)
    requires HoldsNals(o, base, nals) && x <= |o.out|
    ensures HoldsNals(Buffer(o.out, o.ranges + [Range(x, |o.out| - x)], None), base, nals + [o.out[x..]])
  {
    hide HoldsNal;
    EndHolds(o.out, x);
    var ranges, all := o.ranges + [Range(x, |o.out| - x)], nals + [o.out[x..]];
    forall i | 0 <= i < |all| ensures HoldsNal(o.out, ranges[base + i], all[i]) {
      if i < |nals| {
        assert ranges[base + i] == o.ranges[base + i];
      }
    }
  }

  lemma EndHolds(out: Bytes, x: nat)
    requires x <= |out|
    ensures HoldsNal(out, Range(x, |out| - x), out[x..])
  {
    assert out[x..|out|] == out[x..];
  }

  lemma ActionMatches(o: Output, base: nat, t: Tally, a: Action)
    requires Matches(o, base, t)
    ensures Matches(Act(o, a), base, CountAction(t, a))
  {
    hide Matches, Append;
    match a
    case Skip =>
    case Emit(nals) => EmitMatches(o, base, t, nals);
    case Begin(head) => BeginMatches(o, base, t, head);
    case More(data, end) => MoreMatches(o, base, t, data, end);
  }

  lemma ChainedMatches(o: Output, base: nat, t: Tally, n: Bytes)
    requires Matches(o, base, t)
    ensures Matches(Append(o, [n]).(open := None), base, Tally(t.nals + [n], |t.nals| + 1, None))
  {
    hide HoldsNals, Append;
    HoldsMore(o, base, t.nals, [n]);
    HoldsStill(Append(o, [n]), Append(o, [n]).(open := None), base, t.nals + [n]);
  }

  lemma EffectMatches(o: Output, base: nat, t: Tally, f: Fate, n: Bytes)
    requires Matches(o, base, t)
    ensures Matches(Effect(o, f, n), base, Count(t, f, n))
  {
    hide Matches, Append, CountAction;
    match f
    case Whole => EmitMatches(o, base, t, [n]);
    case Chained => ChainedMatches(o, base, t, n);
    case Acts(a) => ActionMatches(o, base, t, a);
  }

  lemma HoldsLength(o: Output, base: nat, nals: seq<Bytes>)
    requires HoldsNals(o, base, nals)
    ensures |o.ranges| == base + |nals|
  {
  }

  lemma HoldsAt(o: Output, base: nat, nals: seq<Bytes>, i: nat)
    requires HoldsNals(o, base, nals) && i < |nals|
    ensures |o.ranges| == base + |nals| && HoldsNal(o.out, o.ranges[base + i], nals[i])
  {
  }

  /** The first `kept` ranges hold their NALs; the others point past the end of the output. */
  ghost predicate Recovered(w: Output, base: nat, t: Tally) {
    && |w.ranges| == base + |t.nals| && t.kept <= |t.nals|
    && (forall i :: 0 <= i < t.kept ==> HoldsNal(w.out, w.ranges[base + i], t.nals[i]))
    && (forall j :: base + t.kept <= j < |w.ranges| ==> w.ranges[j].off > |w.out|)
  }

  lemma FinishRecovered(o: Output, base: nat, t: Tally)
    requires Matches(o, base, t)
    ensures Recovered(Finish(o), base, t)
  {
    hide HoldsNals;
    var w := Finish(o);
    HoldsLength(o, base, t.nals);
    forall i | 0 <= i < t.kept ensures HoldsNal(w.out, w.ranges[base + i], t.nals[i]) {
      HoldsAt(o, base, t.nals, i);
      var r := o.ranges[base + i];
      assert w.out[r.off..r.off + r.len] == o.out[r.off..r.off + r.len];
    }
  }

  lemma CutRecovered(o: Output, base: nat, t: Tally)
    requires Matches(o, base, t)
    ensures Recovered(Buffer(o.out, o.ranges, None), base, Tally(t.nals, |t.nals|, None))
  {
    hide HoldsNals;
    HoldsLength(o, base, t.nals);
    forall i | 0 <= i < |t.nals| ensures HoldsNal(o.out, o.ranges[base + i], t.nals[i]) {
      HoldsAt(o, base, t.nals, i);
    }
  }

  lemma {:induction false} OutcomeRecovered(c: Codec, o: Output, base: nat, t: Tally, ns: seq<Sent>, mtu: nat, k: nat)
    requires AllPackable(c, ns, mtu) && Matches(o, base, t)
    ensures Recovered(Outcome(c, o, ns, mtu, k), base, TallyOf(c, t, ns, mtu, k))
    decreases ns
  {
    hide Matches, Recovered, Effect, Count, Packets, FateOf, Packable, Finish;
    if ns == [] || k == 0 {
      FinishRecovered(o, base, t);
    } else {
      var p, f := |Packets(c, ns[0].nal, mtu, ns[0].donl)|, FateOf(c, ns[0], mtu);
      if k < p {
        CutRecovered(o, base, t);
      } else {
        EffectMatches(o, base, t, f, ns[0].nal);
        OutcomeRecovered(c, Effect(o, f, ns[0].nal), base, Count(t, f, ns[0].nal), ns[1..], mtu, k - p);
      }
    }
  }

  const NOTHING := Tally([], 0, None)

  /**
   * Every access unit, cut anywhere. The ranges recorded are those of the tallied NALs, in order. The ones
   * before a chain that is left open hold their NALs, the ones after its start point past the end of the
   * output, and without such a chain all hold their NALs.
   */
  lemma AccessUnitRecovered(c: Codec, ns: seq<Sent>, mtu: nat, k: nat, out: Bytes, ranges: seq<Range>)
    requires AllPackable(c, ns, mtu) && k <= |AllPackets(c, ns, mtu)|
    ensures Recovered(Reassemble(c, AllPackets(c, ns, mtu)[..k], out, ranges), |ranges|,
                      TallyOf(c, NOTHING, ns, mtu, k))
  {
    hide AllPackets, Run, Finish, TallyOf, Outcome, Recovered, AllPackable;
    var o: Output := Buffer(out, ranges, None);
    OutcomeIs(c, o, ns, mtu, k);
    OutcomeRecovered(c, o, |ranges|, NOTHING, ns, mtu, k);
  }

  // ---- NALs of the types a stream may hold ----

  /** The receiver does not take the NAL's own packet for an aggregate or a fragment. */
  predicate Plain(c: Codec, n: Bytes, mtu: nat)
    requires Packable(c, n, mtu)
  {
    if c == Hevc then
      if ParameterSet(n) then |n| < 0x1_0000
      else |n| + 4 <= mtu ==> HevcType(n[0]) != AP && HevcType(n[0]) != FU
    else |n| > mtu || AvcType(n[0]) !in {STAP_A, FU_A, FU_B}
  }

  ghost predicate AllPlain(c: Codec, ns: seq<Sent>, mtu: nat) {
    forall x :: x in ns ==> Packable(c, x.nal, mtu) && Plain(c, x.nal, mtu)
  }

  /** A plain NAL that does not survive opens a chain in HEVC and is skipped in H.264. */
  lemma PlainFate(c: Codec, x: Sent, mtu: nat)
    requires Packable(c, x.nal, mtu) && Plain(c, x.nal, mtu) && !Deliverable(c, x.nal, mtu)
    ensures FateOf(c, x, mtu) == Acts(if c == Hevc then Begin(x.nal) else Skip)
  {
    if c == Hevc {
      OpenerFate(x, mtu);
    }
  }

  /** The deliverable NALs whose packets all came through. */
  function DeliveredNals(c: Codec, ns: seq<Sent>, mtu: nat, k: nat): seq<Bytes>
    requires AllPackable(c, ns, mtu)
    decreases ns
  {
    if ns == [] || k < |Packets(c, ns[0].nal, mtu, ns[0].donl)| then []
    else
      (if Deliverable(c, ns[0].nal, mtu) then [ns[0].nal] else [])
      + DeliveredNals(c, ns[1..], mtu, k - |Packets(c, ns[0].nal, mtu, ns[0].donl)|)
  }

  /** For plain NALs the tallied ones are exactly these. */
  lemma {:induction false} TallyNals(c: Codec, t: Tally, ns: seq<Sent>, mtu: nat, k: nat)
    requires AllPlain(c, ns, mtu)
    ensures TallyOf(c, t, ns, mtu, k).nals == t.nals + DeliveredNals(c, ns, mtu, k)
    decreases ns
  {
    hide Packets, Deliverable, Plain, Packable, ActionOf;
    if ns != [] {
      PacketsSome(c, ns[0], mtu);
      var p, f := |Packets(c, ns[0].nal, mtu, ns[0].donl)|, FateOf(c, ns[0], mtu);
      if k >= p {
        if !Deliverable(c, ns[0].nal, mtu) {
          PlainFate(c, ns[0], mtu);
        }
        TallyNals(c, Count(t, f, ns[0].nal), ns[1..], mtu, k - p);
      }
    }
  }

  lemma PacketsSome(c: Codec, x: Sent, mtu: nat)
    requires Packable(c, x.nal, mtu)
    ensures |Packets(c, x.nal, mtu, x.donl)| > 0
  {
    hide FragmentPayload;
  }

  /** All of them are held if no NAL opens a chain, as is always so for H.264. */
  lemma {:induction false} AllKept(c: Codec, t: Tally, ns: seq<Sent>, mtu: nat, k: nat)
    requires AllPlain(c, ns, mtu) && t.open.None? && t.kept == |t.nals|
    requires forall x :: x in ns ==> c == Hevc ==> |x.nal| != mtu - 3 || ParameterSet(x.nal)
    ensures var r := TallyOf(c, t, ns, mtu, k); r.kept == |r.nals|
    decreases ns
  {
    hide Packets, ActionOf;
    if ns != [] && k > 0 {
      var p, f := |Packets(c, ns[0].nal, mtu, ns[0].donl)|, FateOf(c, ns[0], mtu);
      if k >= p {
        if !Deliverable(c, ns[0].nal, mtu) {
          PlainFate(c, ns[0], mtu);
        }
        AllKept(c, Count(t, f, ns[0].nal), ns[1..], mtu, k - p);
      }
    }
  }
}
