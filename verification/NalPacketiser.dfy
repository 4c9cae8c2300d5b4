/** NAL units to RTP payloads, and back: tools/synth.cpp:135-169 against src/media/nalu.cpp:16-104. */
module NalPacketiser {
  import opened Wire
  import opened Bytes
  import opened Nalu

  /** `n` from `off` on, in pieces of at most `chunk` bytes. */
  function Cut(n: Bytes, off: nat, chunk: nat, don: Option<U16>): (f: seq<Fragment>)
    requires chunk > 0 && off <= |n|
    ensures forall x :: x in f ==> x.don == don && x.data != []
    ensures (f == [] <==> off == |n|) && (|f| == 1 <==> off < |n| <= off + chunk)
    decreases |n| - off
  {
    if off == |n| then []
    else if off + chunk >= |n| then [Fragment(don, n[off..])]
    else [Fragment(don, n[off..off + chunk])] + Cut(n, off + chunk, chunk, don)
  }

  /** The fragmentation loop from offset `off`. */
  function Fragments(c: Codec, n: Bytes, off: nat, chunk: nat, don: Option<U16>): seq<Bytes>
    requires chunk > 0 && off <= |n| && |n| >= HeaderSize(c) && (c == Hevc ==> don.Some?)
    decreases |n| - off
  {
    if off == |n| then []
    else
      var next := if off + chunk >= |n| then |n| else off + chunk;
      [FragmentPayload(c, n, Fragment(don, n[off..next]), off == HeaderSize(c), next == |n|)]
      + Fragments(c, n, next, chunk, don)
  }

  predicate ParameterSet(n: Bytes)
    requires n != []
  {
    HevcType(n[0]) in {32, 33, 34}
  }

  function HevcPackets(n: Bytes, mtu: nat, donl: U16): seq<Bytes>
    requires |n| >= 2 && mtu > 5
  {
    if ParameterSet(n) then
      [[2 * AP + n[0] / 0x80 * 0x80 + n[0] % 2, n[1]] + ToBe(donl, 2) + (ToBe(|n|, 2) + n)]
    else if |n| + 4 <= mtu then [n[..2] + ToBe(donl, 2) + n[2..]]
    else Fragments(Hevc, n, 2, mtu - 5, Some(donl))
  }

  function AvcPackets(n: Bytes, mtu: nat): seq<Bytes>
    requires n != [] && mtu > 2
  {
    if |n| <= mtu then [n] else Fragments(Avc, n, 1, mtu - 2, None)
  }

  ghost predicate Packable(c: Codec, n: Bytes, mtu: nat) {
    if c == Hevc then |n| >= 2 && mtu > 5 else n != [] && mtu > 2
  }

  function Packets(c: Codec, n: Bytes, mtu: nat, donl: U16): seq<Bytes>
    requires Packable(c, n, mtu)
  {
    if c == Hevc then HevcPackets(n, mtu, donl) else AvcPackets(n, mtu)
  }

  /** When the receiver gets the NAL back. */
  predicate Deliverable(c: Codec, n: Bytes, mtu: nat)
    requires Packable(c, n, mtu)
  {
    if c == Hevc then
      if ParameterSet(n) then |n| < 0x1_0000
      else if |n| + 4 <= mtu then HevcType(n[0]) != AP && HevcType(n[0]) != FU
      else |n| != mtu - 3
    else
      |n| > mtu || (|n| >= 2 && 1 <= AvcType(n[0]) <= 23 && n[0] != CONFIG_MARKER)
  }

  // ---- a deliverable NAL is sent as a proper unit ----

  function UnitFor(c: Codec, n: Bytes, mtu: nat, donl: U16): Unit
    requires Packable(c, n, mtu)
  {
    if c == Hevc then
      if ParameterSet(n) then Aggregate([2 * AP + n[0] / 0x80 * 0x80 + n[0] % 2, n[1]], [n], donl)
      else if |n| + 4 <= mtu then Single(n, donl)
      else Chain(n, Cut(n, 2, mtu - 5, Some(donl)))
    else if |n| <= mtu then Single(n, donl)
    else Chain(n, Cut(n, 1, mtu - 2, None))
  }

  lemma {:induction false} JoinedFirst(x: Fragment, f: seq<Fragment>)
    ensures Joined([x] + f) == x.data + Joined(f)
  {
    if f == [] {
      assert [x] + f == [x] && [x][..0] == [];
    } else {
      var g := [x] + f;
      assert g[..|g| - 1] == [x] + f[..|f| - 1];
      JoinedFirst(x, f[..|f| - 1]);
    }
  }

  lemma {:induction false} CutJoins(n: Bytes, off: nat, chunk: nat, don: Option<U16>)
    requires chunk > 0 && off <= |n|
    ensures Joined(Cut(n, off, chunk, don)) == n[off..]
    decreases |n| - off
  {
    hide Joined;
    if off == |n| {
      NothingJoined();
    } else if off + chunk >= |n| {
      JoinedFirst(Fragment(don, n[off..]), []);
      NothingJoined();
      assert [Fragment(don, n[off..])] + [] == [Fragment(don, n[off..])];
    } else {
      CutJoins(n, off + chunk, chunk, don);
      JoinedFirst(Fragment(don, n[off..off + chunk]), Cut(n, off + chunk, chunk, don));
      assert n[off..off + chunk] + n[off + chunk..] == n[off..];
    }
  }

  lemma NothingJoined()
    ensures Joined([]) == []
  {
  }

  /** The payloads the loop builds are those of the pieces, first and last marked. */
  lemma {:induction false} FragmentsOfCut(c: Codec, n: Bytes, off: nat, chunk: nat, don: Option<U16>, i: nat)
    requires chunk > 0 && HeaderSize(c) <= off <= |n| && (c == Hevc ==> don.Some?)
    requires i < |Cut(n, off, chunk, don)|
    ensures |Fragments(c, n, off, chunk, don)| == |Cut(n, off, chunk, don)|
    ensures var f := Cut(n, off, chunk, don);
      Fragments(c, n, off, chunk, don)[i]
      == FragmentPayload(c, n, f[i], i == 0 && off == HeaderSize(c), i == |f| - 1)
    decreases |n| - off
  {
    hide FragmentPayload;
    if off + chunk < |n| {
      FragmentsOfCut(c, n, off + chunk, chunk, don, if i == 0 then 0 else i - 1);
    } else {
      assert n[off..|n|] == n[off..];
    }
  }

  lemma {:induction false} ChainPayloadAt(c: Codec, n: Bytes, f: seq<Fragment>, k: nat, i: nat)
    requires Sendable(c, Chain(n, f)) && i < k <= |f|
    ensures ChainPayloads(c, n, f, k)[i] == FragmentPayload(c, n, f[i], i == 0, i == |f| - 1)
    decreases k
  {
    hide FragmentPayload;
    if i < k - 1 {
      ChainPayloadAt(c, n, f, k - 1, i);
    }
  }

  lemma FragmentsAreChain(c: Codec, n: Bytes, chunk: nat, don: Option<U16>)
    requires chunk > 0 && |n| > HeaderSize(c) + chunk && (c == Hevc ==> don.Some?)
    ensures Sendable(c, Chain(n, Cut(n, HeaderSize(c), chunk, don)))
    ensures Payloads(c, Chain(n, Cut(n, HeaderSize(c), chunk, don))) == Fragments(c, n, HeaderSize(c), chunk, don)
  {
    hide FragmentPayload, Cut, Fragments, ChainPayloads;
    var f := Cut(n, HeaderSize(c), chunk, don);
    CutJoins(n, HeaderSize(c), chunk, don);
    FragmentsOfCut(c, n, HeaderSize(c), chunk, don, 0);
    forall i | 0 <= i < |f|
      ensures ChainPayloads(c, n, f, |f|)[i] == Fragments(c, n, HeaderSize(c), chunk, don)[i]
    {
      FragmentsOfCut(c, n, HeaderSize(c), chunk, don, i);
      ChainPayloadAt(c, n, f, |f|, i);
    }
  }

  /** A deliverable NAL travels as one proper unit that carries just it. */
  lemma SentAsUnit(c: Codec, n: Bytes, mtu: nat, donl: U16)
    requires Packable(c, n, mtu) && Deliverable(c, n, mtu)
    ensures var u := UnitFor(c, n, mtu, donl);
      Sendable(c, u) && NalsOf(u) == [n] && Payloads(c, u) == Packets(c, n, mtu, donl)
  {
    hide ToBe, Fragments, Cut;
    if c == Hevc {
      if ParameterSet(n) {
        assert LengthPrefixed([n]) == ToBe(|n|, 2) + n + LengthPrefixed([n][1..]);
        assert [n][1..] == [] && ToBe(|n|, 2) + n + [] == ToBe(|n|, 2) + n;
      } else if |n| + 4 > mtu {
        FragmentsAreChain(c, n, mtu - 5, Some(donl));
      }
    } else if |n| > mtu {
      FragmentsAreChain(c, n, mtu - 2, None);
    }
  }

  // ---- exactly when a NAL survives ----

  lemma OnePayload(c: Codec, pay: Bytes, out: Bytes, ranges: seq<Range>)
    ensures var o := Buffer(out, ranges, None);
      Reassemble(c, [pay], out, ranges)
      == if ActionOf(c, pay).Emit? then Append(o, ActionOf(c, pay).nals) else o
  {
    hide ActionOf, Append;
    var o: Output := Buffer(out, ranges, None);
    RunOne(c, o, pay);
    var a := ActionOf(c, pay);
    if a.Begin? {
      assert (o.out + START_CODE + a.head)[..|out|] == out;
    } else if a.Emit? {
      AppendKeepsOpen(o, a.nals);
    }
  }

  /** A result with one NAL of the length of `n` was made from one NAL of that length. */
  lemma AppendLengths(o: Output, nals: seq<Bytes>, n: Bytes)
    requires Append(o, nals) == Append(o, [n])
    ensures |nals| == 1 && |nals[0]| == |n|
  {
    var r, s := RangesAt(|o.out|, nals), RangesAt(|o.out|, [n]);
    assert |o.ranges + r| == |o.ranges + s|;
    assert (o.ranges + r)[|o.ranges|] == r[0] && (o.ranges + s)[|o.ranges|] == s[0];
  }

  lemma AppendVisible(o: Output, n: Bytes)
    ensures Append(o, [n]) != o
  {
    assert |RangesAt(|o.out|, [n])| == 1;
  }

  ghost predicate Survives(c: Codec, n: Bytes, mtu: nat, donl: U16, out: Bytes, ranges: seq<Range>)
    requires Packable(c, n, mtu)
  {
    Reassemble(c, Packets(c, n, mtu, donl), out, ranges) == Append(Buffer(out, ranges, None), [n])
  }

  /** One payload that carries no unit of the length of `n` does not deliver `n`. */
  lemma Lost(c: Codec, n: Bytes, mtu: nat, donl: U16, pay: Bytes, out: Bytes, ranges: seq<Range>)
    requires Packable(c, n, mtu) && Packets(c, n, mtu, donl) == [pay]
    requires ActionOf(c, pay).Emit? ==> forall x :: x in ActionOf(c, pay).nals ==> |x| != |n|
    ensures !Survives(c, n, mtu, donl, out, ranges)
  {
    hide ActionOf, Append, Packets, Reassemble;
    var o: Output := Buffer(out, ranges, None);
    OnePayload(c, pay, out, ranges);
    AppendVisible(o, n);
    var a := ActionOf(c, pay);
    if a.Emit? && Append(o, a.nals) == Append(o, [n]) {
      AppendLengths(o, a.nals, n);
    }
  }

  lemma HevcLost(n: Bytes, mtu: nat, donl: U16, out: Bytes, ranges: seq<Range>)
    requires Packable(Hevc, n, mtu) && !Deliverable(Hevc, n, mtu)
    ensures !Survives(Hevc, n, mtu, donl, out, ranges)
  {
    hide ToBe, UnitsFrom, Survives;
    var p := HevcPackets(n, mtu, donl);
    if |n| + 4 > mtu && !ParameterSet(n) {
      SingleFragment(n, mtu, donl);
    }
    Lost(Hevc, n, mtu, donl, p[0], out, ranges);
  }

  /** The fragment of a NAL of `mtu - 3` bytes is marked first and last, and only opens a chain. */
  lemma SingleFragment(n: Bytes, mtu: nat, donl: U16)
    requires mtu > 5 && |n| == mtu - 3 && !ParameterSet(n)
    ensures |HevcPackets(n, mtu, donl)| == 1 && HevcAction(HevcPackets(n, mtu, donl)[0]) == Begin(n)
  {
    hide FragmentPayload, HevcAction;
    var x := Fragment(Some(donl), n[2..|n|]);
    assert Fragments(Hevc, n, |n|, mtu - 5, Some(donl)) == [];
    assert HevcPackets(n, mtu, donl) == [FragmentPayload(Hevc, n, x, true, true)];
    HevcFragment(n, x, true, true);
    assert n[..2] + n[2..|n|] == n;
  }

  lemma AvcLost(n: Bytes, mtu: nat, donl: U16, out: Bytes, ranges: seq<Range>)
    requires Packable(Avc, n, mtu) && !Deliverable(Avc, n, mtu)
    ensures !Survives(Avc, n, mtu, donl, out, ranges)
  {
    hide UnitsFrom, Survives;
    Lost(Avc, n, mtu, donl, n, out, ranges);
  }

  /** The receiver gets back exactly the NAL that was sent if and only if it is deliverable. */
  lemma SurvivesIff(c: Codec, n: Bytes, mtu: nat, donl: U16, out: Bytes, ranges: seq<Range>)
    requires Packable(c, n, mtu)
    ensures Survives(c, n, mtu, donl, out, ranges) <==> Deliverable(c, n, mtu)
  {
    hide Deliverable, Packets, Payloads, Sendable, Append;
    if Deliverable(c, n, mtu) {
      var o: Output := Buffer(out, ranges, None);
      SentAsUnit(c, n, mtu, donl);
      UnitDelivers(c, o, UnitFor(c, n, mtu, donl));
      AppendKeepsOpen(o, [n]);
    } else if c == Hevc {
      HevcLost(n, mtu, donl, out, ranges);
    } else {
      AvcLost(n, mtu, donl, out, ranges);
    }
  }

  // ---- a whole access unit, cut anywhere ----

  datatype Sent = Sent(nal: Bytes, donl: U16)

  ghost predicate AllDeliverable(c: Codec, ns: seq<Sent>, mtu: nat) {
    forall x :: x in ns ==> Packable(c, x.nal, mtu) && Deliverable(c, x.nal, mtu)
  }

  function AllPackets(c: Codec, ns: seq<Sent>, mtu: nat): seq<Bytes>
    requires forall x :: x in ns ==> Packable(c, x.nal, mtu)
  {
    if ns == [] then [] else Packets(c, ns[0].nal, mtu, ns[0].donl) + AllPackets(c, ns[1..], mtu)
  }

  /** The NALs all of whose packets are among the first `k`. */
  function WholeNals(c: Codec, ns: seq<Sent>, mtu: nat, k: nat): seq<Bytes>
    requires AllDeliverable(c, ns, mtu)
  {
    if ns == [] || k < |Packets(c, ns[0].nal, mtu, ns[0].donl)| then []
    else [ns[0].nal] + WholeNals(c, ns[1..], mtu, k - |Packets(c, ns[0].nal, mtu, ns[0].donl)|)
  }

  function UnitsFor(c: Codec, ns: seq<Sent>, mtu: nat): seq<Unit>
    requires AllDeliverable(c, ns, mtu)
  {
    if ns == [] then [] else [UnitFor(c, ns[0].nal, mtu, ns[0].donl)] + UnitsFor(c, ns[1..], mtu)
  }

  lemma {:induction false} PacketsAreUnits(c: Codec, ns: seq<Sent>, mtu: nat, k: nat)
    requires AllDeliverable(c, ns, mtu)
    ensures forall u :: u in UnitsFor(c, ns, mtu) ==> Sendable(c, u)
    ensures AllPayloads(c, UnitsFor(c, ns, mtu)) == AllPackets(c, ns, mtu)
    ensures CompleteNals(c, UnitsFor(c, ns, mtu), k) == WholeNals(c, ns, mtu, k)
    decreases ns
  {
    hide UnitFor, Packets, Payloads, Sendable, NalsOf, Deliverable, Packable;
    if ns != [] {
      var x := ns[0];
      SentAsUnit(c, x.nal, mtu, x.donl);
      var p := |Packets(c, x.nal, mtu, x.donl)|;
      PacketsAreUnits(c, ns[1..], mtu, if k < p then 0 else k - p);
      var us := UnitsFor(c, ns, mtu);
      assert us[1..] == UnitsFor(c, ns[1..], mtu);
    }
  }

  /** Cut the packet list anywhere: the receiver has exactly the NALs whose packets all came through. */
  lemma PacketiserPrefix(c: Codec, ns: seq<Sent>, mtu: nat, k: nat, out: Bytes, ranges: seq<Range>)
    requires AllDeliverable(c, ns, mtu) && k <= |AllPackets(c, ns, mtu)|
    ensures Reassemble(c, AllPackets(c, ns, mtu)[..k], out, ranges)
         == Append(Buffer(out, ranges, None), WholeNals(c, ns, mtu, k))
  {
    hide AllPackets, AllPayloads, WholeNals, CompleteNals, Sendable, Reassemble, Append, UnitsFor, AllDeliverable;
    PacketsAreUnits(c, ns, mtu, k);
    PrefixReassembles(c, UnitsFor(c, ns, mtu), k, out, ranges);
  }

  // ---- the loops ----

  method PacketiseFragments(c: Codec, n: Bytes, chunk: nat, don: Option<U16>) returns (packets: seq<Bytes>)
    requires chunk > 0 && |n| >= HeaderSize(c) && (c == Hevc ==> don.Some?)
    ensures packets == Fragments(c, n, HeaderSize(c), chunk, don)
  {
    hide FragmentPayload, Fragments;
    packets := [];
    var off := HeaderSize(c);
    while off < |n|
      invariant HeaderSize(c) <= off <= |n|
      invariant packets + Fragments(c, n, off, chunk, don) == Fragments(c, n, HeaderSize(c), chunk, don)
    {
      var len := if chunk < |n| - off then chunk else |n| - off;
      var start, end := off == HeaderSize(c), off + len >= |n|;
      FragmentsStep(c, n, off, chunk, don, packets);
      packets := packets + [FragmentPayload(c, n, Fragment(don, n[off..off + len]), start, end)];
      off := off + len;
    }
    FragmentsEnd(c, n, chunk, don, packets);
  }

  lemma FragmentsStep(c: Codec, n: Bytes, off: nat, chunk: nat, don: Option<U16>, done: seq<Bytes>)
    requires chunk > 0 && off < |n| && |n| >= HeaderSize(c) && (c == Hevc ==> don.Some?)
    ensures var next := if chunk < |n| - off then off + chunk else |n|;
      var p := FragmentPayload(c, n, Fragment(don, n[off..next]), off == HeaderSize(c), next >= |n|);
      done + Fragments(c, n, off, chunk, don) == done + [p] + Fragments(c, n, next, chunk, don)
  {
    hide FragmentPayload;
  }

  lemma FragmentsEnd(c: Codec, n: Bytes, chunk: nat, don: Option<U16>, done: seq<Bytes>)
    requires chunk > 0 && |n| >= HeaderSize(c) && (c == Hevc ==> don.Some?)
    ensures done + Fragments(c, n, |n|, chunk, don) == done
  {
  }

  method PacketiseHevc(n: Bytes, mtu: nat, donl: U16) returns (packets: seq<Bytes>)
    requires |n| >= 2 && mtu > 5
    ensures packets == Packets(Hevc, n, mtu, donl)
  {
    if ParameterSet(n) {
      packets := [[2 * AP + n[0] / 0x80 * 0x80 + n[0] % 2, n[1]] + ToBe(donl, 2) + (ToBe(|n|, 2) + n)];
    } else if |n| + 4 <= mtu {
      packets := [n[..2] + ToBe(donl, 2) + n[2..]];
    } else {
      packets := PacketiseFragments(Hevc, n, mtu - 5, Some(donl));
    }
  }

  method PacketiseAvc(n: Bytes, mtu: nat, donl: U16) returns (packets: seq<Bytes>)
    requires n != [] && mtu > 2
    ensures packets == Packets(Avc, n, mtu, donl)
  {
    if |n| <= mtu {
      packets := [n];
    } else {
      packets := PacketiseFragments(Avc, n, mtu - 2, None);
    }
  }
}
