/** Which texts name an endpoint host, against grammars of their own: src/tunnel/pairing.cpp:101-169 and 250-277. */
module EndpointHosts {
  import opened Wire
  import opened Bytes
  import opened Decimal
  import opened Pairing

  /** The parts with `sep` between them. */
  function Joined(parts: seq<Bytes>, sep: U8): Bytes {
    if parts == [] then []
    else if |parts| == 1 then parts[0]
    else parts[0] + [sep] + Joined(parts[1..], sep)
  }

  lemma JoinedCons(p: Bytes, rest: seq<Bytes>, sep: U8)
    requires rest != []
    ensures Joined([p] + rest, sep) == p + [sep] + Joined(rest, sep)
  {
    assert ([p] + rest)[1..] == rest;
  }

  // ---- host names ----

  /** An ASCII digit, letter or hyphen. */
  predicate LabelChar(c: U8) {
    48 <= c <= 57 || 65 <= c <= 90 || 97 <= c <= 122 || c == 45
  }

  /** 1 to 63 letters, digits and hyphens, no hyphen at either end. */
  predicate GoodLabel(l: Bytes) {
    0 < |l| <= 63 && l[0] != DASH && l[|l| - 1] != DASH && forall i :: 0 <= i < |l| ==> LabelChar(l[i])
  }

  ghost predicate GoodLabels(ls: seq<Bytes>) {
    ls != [] && forall i :: 0 <= i < |ls| ==> GoodLabel(ls[i])
  }

  /** The beginning of a label that `rest` goes on with. */
  predicate Begun(p: Bytes, rest: Bytes) {
    && |p| <= 63 && (p != [] ==> p[0] != DASH) && (forall i :: 0 <= i < |p| ==> LabelChar(p[i]))
    && (p != [] && p[|p| - 1] == DASH ==> rest != [] && rest[0] != DOT)
  }

  /** A label that has begun and ends here is good. */
  lemma LabelEnds(p: Bytes, h: Bytes)
    requires Begun(p, h) && p != [] && (h == [] || h[0] == DOT)
    ensures GoodLabel(p)
  {
  }

  lemma LabelGrows(p: Bytes, h: Bytes)
    requires Begun(p, h) && h != [] && h[0] != DOT && LabelsOk(h, |p|)
    ensures Begun(p + [h[0]], h[1..]) && LabelsOk(h[1..], |p| + 1)
  {
    var q := p + [h[0]];
    forall i | 0 <= i < |q| ensures LabelChar(q[i]) {
      assert i < |p| ==> q[i] == p[i];
    }
  }

  lemma OneMoreLabel(p: Bytes, rest: seq<Bytes>)
    requires GoodLabel(p) && (rest == [] || GoodLabels(rest))
    ensures GoodLabels([p] + rest)
  {
    hide GoodLabel;
    var ls := [p] + rest;
    forall i | 0 <= i < |ls| ensures GoodLabel(ls[i]) {
      assert i > 0 ==> ls[i] == rest[i - 1];
    }
  }

  lemma {:induction false} LabelsSound(p: Bytes, h: Bytes) returns (ls: seq<Bytes>)
    requires Begun(p, h) && LabelsOk(h, |p|)
    ensures GoodLabels(ls) && Joined(ls, DOT) == p + h
    decreases h
  {
    hide LabelChar, GoodLabel, GoodLabels, IsAlnum;
    if h == [] {
      LabelEnds(p, h);
      OneMoreLabel(p, []);
      ls := [p] + [];
      assert p + h == p;
    } else if h[0] == DOT {
      LabelEnds(p, h);
      var rest := LabelsSound([], h[1..]);
      OneMoreLabel(p, rest);
      ls := [p] + rest;
      assert rest != [] by { SomeLabel(rest); }
      JoinedCons(p, rest, DOT);
      assert [] + h[1..] == h[1..];
      assert p + [DOT] + h[1..] == p + h;
    } else {
      LabelGrows(p, h);
      ls := LabelsSound(p + [h[0]], h[1..]);
      assert p + [h[0]] + h[1..] == p + h;
    }
  }

  lemma SomeLabel(ls: seq<Bytes>)
    requires GoodLabels(ls)
    ensures ls != []
  {
  }

  lemma {:induction false} LabelsComplete(ls: seq<Bytes>, p: Bytes, h: Bytes)
    requires GoodLabels(ls) && Joined(ls, DOT) == p + h && p <= ls[0]
    ensures LabelsOk(h, |p|)
    decreases |ls|, |h|
  {
    var l := ls[0];
    if |p| == |l| {
      assert p == l;
      if |ls| == 1 {
        assert h == [] by { assert |p + h| == |p|; }
      } else {
        JoinedCons(l, ls[1..], DOT);
        assert ls == [l] + ls[1..];
        var rest := Joined(ls[1..], DOT);
        assert l + [DOT] + rest == p + ([DOT] + rest);
        SameFrontRest(p, h, [DOT] + rest);
        assert h[1..] == [] + rest == rest;
        LabelsComplete(ls[1..], [], h[1..]);
      }
    } else {
      LabelNext(ls, p, h);
      assert p + [h[0]] + h[1..] == p + h;
      LabelsComplete(ls, p + [h[0]], h[1..]);
    }
  }

  lemma SameFrontRest(p: Bytes, a: Bytes, b: Bytes)
    requires p + a == p + b
    ensures a == b
  {
    assert (p + a)[|p|..] == a && (p + b)[|p|..] == b;
  }

  /** The next character of an unfinished label. */
  lemma LabelNext(ls: seq<Bytes>, p: Bytes, h: Bytes)
    requires GoodLabels(ls) && Joined(ls, DOT) == p + h && p < ls[0]
    ensures h != [] && h[0] == ls[0][|p|] && p + [h[0]] <= ls[0] && LabelChar(h[0]) && h[0] != DOT
    ensures h[0] == DASH ==> p != [] && |h| > 1 && h[1] != DOT
  {
    var l, j := ls[0], Joined(ls, DOT);
    assert GoodLabel(l);
    assert l <= j;
    assert j[|p|] == l[|p|] && j[|p|] == h[0];
    if h[0] == DASH {
      assert |p| + 1 < |l|;
      assert j[|p| + 1] == l[|p| + 1] && j[|p| + 1] == h[1];
      assert LabelChar(l[|p| + 1]);
    }
  }

  /** A name is accepted if and only if it is good labels with dots between, at most 253 long, not only digits. */
  lemma HostnameIff(h: Bytes)
    ensures ValidHostname(h) <==>
      && |h| <= 253 && (exists i :: 0 <= i < |h| && !IsDigit(h[i]) && h[i] != DOT)
      && exists ls :: GoodLabels(ls) && h == Joined(ls, DOT)
  {
    hide LabelsOk, GoodLabels, Joined;
    if ValidHostname(h) {
      var ls := LabelsSound([], h);
      assert [] + h == h;
    }
    if ls :| GoodLabels(ls) && h == Joined(ls, DOT) {
      assert h == [] + h;
      JoinedEnds(ls);
      LabelsComplete(ls, [], h);
    }
  }

  lemma {:induction false} JoinedEnds(ls: seq<Bytes>)
    requires GoodLabels(ls)
    ensures var h := Joined(ls, DOT); h != [] && h[0] != DOT && h[|h| - 1] != DOT && [] <= ls[0]
  {
    var l := ls[0];
    assert GoodLabel(l) && LabelChar(l[0]) && LabelChar(l[|l| - 1]);
    if |ls| > 1 {
      JoinedEnds(ls[1..]);
      var h, rest := Joined(ls, DOT), Joined(ls[1..], DOT);
      assert h[|h| - 1] == rest[|rest| - 1];
    }
  }

  // ---- IPv4 endpoints ----

  /** Unicast addresses outside 127/8: not 0.0.0.0, and the first octet is below 224 and not 127. */
  lemma UsableIpv4Iff(a: U8, b: U8, c: U8, d: U8)
    ensures UsableIpv4(((a * 256 + b) * 256 + c) * 256 + d) <==>
            (a, b, c, d) != (0, 0, 0, 0) && a != 127 && a < 224
  {
    var v := ((a * 256 + b) * 256 + c) * 256 + d;
    assert v == a * 0x100_0000 + (b * 0x1_0000 + c * 256 + d);
    DivModUnique(v, 0x100_0000, a, b * 0x1_0000 + c * 256 + d);
    assert v / 0x1000_0000 == a / 16;
  }

  // ---- IPv6 literals ----

  /** The digit of value `d`, in either case. */
  predicate IsHexDigit(c: U8, d: nat) {
    d < 16 && (if d < 10 then c == 48 + d else c == 65 + d - 10 || c == 97 + d - 10)
  }

  lemma HexValueIff(c: U8, d: nat)
    ensures HexValue(c) == Some(d) <==> IsHexDigit(c, d)
  {
  }

  /** One to four hexadecimal digits. */
  predicate GoodGroup(g: Bytes) {
    0 < |g| <= 4 && forall i :: 0 <= i < |g| ==> HexValue(g[i]).Some?
  }

  ghost predicate GoodGroups(gs: seq<Bytes>) {
    forall i :: 0 <= i < |gs| ==> GoodGroup(gs[i])
  }

  /** The number that the digits of a group write, most significant first. */
  function GroupValue(g: Bytes): nat
    requires GoodGroup(g)
  {
    var d := seq(|g|, i requires 0 <= i < |g| => HexValue(g[i]).value);
    if |g| == 1 then d[0]
    else if |g| == 2 then d[0] * 16 + d[1]
    else if |g| == 3 then d[0] * 256 + d[1] * 16 + d[2]
    else d[0] * 4096 + d[1] * 256 + d[2] * 16 + d[3]
  }

  lemma GroupNumber(g: Bytes)
    requires GoodGroup(g)
    ensures HexNumber(g) == GroupValue(g)
  {
    hide HexValue;
    HexShorter(g);
    if |g| > 1 {
      var h := g[..|g| - 1];
      HexShorter(h);
      if |g| > 2 {
        HexShorter(h[..|h| - 1]);
        if |g| > 3 {
          HexShorter(g[..1]);
        }
      }
    }
  }

  lemma HexShorter(g: Bytes)
    requires 0 < |g| && forall i :: 0 <= i < |g| ==> HexValue(g[i]).Some?
    ensures HexNumber(g) == HexNumber(g[..|g| - 1]) * 16 + HexValue(g[|g| - 1]).value
    ensures |g| == 1 ==> HexNumber(g) == HexValue(g[0]).value
    ensures forall i :: 0 <= i < |g| - 1 ==> g[..|g| - 1][i] == g[i]
  {
    hide HexValue;
    if |g| == 1 {
      assert g[..0] == [];
    }
  }

  ghost function GroupValues(gs: seq<Bytes>): (v: seq<nat>)
    requires GoodGroups(gs)
    ensures |v| == |gs| && forall i :: 0 <= i < |gs| ==> v[i] == GroupValue(gs[i])
  {
    seq(|gs|, i requires 0 <= i < |gs| => GroupValue(gs[i]))
  }

  lemma {:induction false} HexRunIs(s: Bytes, k: nat)
    requires k <= |s| && (forall i :: 0 <= i < k ==> HexValue(s[i]).Some?) && (k < |s| ==> HexValue(s[k]).None?)
    ensures HexRun(s) == k
    decreases k
  {
    hide HexValue;
    if k > 0 {
      HexRunIs(s[1..], k - 1);
    }
  }

  /** A group and what follows it are told apart by the colon. */
  lemma GroupRun(g: Bytes, rest: Bytes)
    requires GoodGroup(g) && (rest != [] ==> rest[0] == COLON)
    ensures HexRun(g + rest) == |g| && (g + rest)[..|g|] == g && (g + rest)[|g|..] == rest
  {
    var s := g + rest;
    assert rest != [] ==> s[|g|] == COLON;
    HexRunIs(s, |g|);
  }

  ghost predicate Room(g: Groups) {
    |g.head| + |g.tail| < 8
  }

  lemma LastGroup(t: Bytes, g: Groups)
    requires GoodGroup(t) && Room(g)
    ensures Ipv6From(t, g) == Some(AddGroup(g, GroupValue(t)))
  {
    hide HexValue, HexNumber, GroupValue;
    GroupRun(t, []);
    assert t + [] == t && t[..|t|] == t;
    GroupNumber(t);
  }

  lemma NextGroup(t: Bytes, more: Bytes, g: Groups)
    requires GoodGroup(t) && Room(g) && more != [] && more[0] != COLON
    ensures Ipv6From(t + [COLON] + more, g) == Ipv6From(more, AddGroup(g, GroupValue(t)))
  {
    hide HexValue, HexNumber, GroupValue;
    var s := t + [COLON] + more;
    assert s == t + ([COLON] + more);
    GroupRun(t, [COLON] + more);
    GroupNumber(t);
    assert s[|t| + 1..] == more && s[|t| + 1] == more[0];
  }

  lemma GapGroup(t: Bytes, more: Bytes, g: Groups)
    requires GoodGroup(t) && Room(g) && !g.gap
    ensures var h := AddGroup(g, GroupValue(t)).(gap := true);
      Ipv6From(t + [COLON, COLON] + more, g) == if more == [] then Some(h) else Ipv6From(more, h)
  {
    hide HexValue, HexNumber, GroupValue;
    var s := t + [COLON, COLON] + more;
    assert s == t + ([COLON, COLON] + more);
    GroupRun(t, [COLON, COLON] + more);
    GroupNumber(t);
    assert s[|t|] == COLON && s[|t| + 1] == COLON && s[|t| + 2..] == more;
  }

  /** What follows a group: nothing, a colon and more, or the gap. */
  datatype Joint = End | Single | Gap

  lemma GroupTaken(s: Bytes, g: Groups) returns (t: Bytes, joint: Joint, more: Bytes)
    requires Ipv6From(s, g).Some?
    ensures GoodGroup(t) && Room(g) && |more| < |s|
    ensures match joint
      case End => s == t && more == []
      case Single => s == t + [COLON] + more && more != [] && more[0] != COLON
      case Gap => s == t + [COLON, COLON] + more && !g.gap
  {
    hide HexValue, HexNumber;
    var k := HexRun(s);
    t := s[..k];
    if k == |s| {
      joint, more := End, [];
    } else if s[k + 1] == COLON {
      joint, more := Gap, s[k + 2..];
    } else {
      joint, more := Single, s[k + 1..];
    }
  }

  lemma NoGroups()
    ensures GoodGroups([]) && GroupValues([]) == [] && Joined([], COLON) == []
  {
  }

  lemma OneGroup(h: Bytes)
    requires GoodGroup(h)
    ensures GoodGroups([h]) && GroupValues([h]) == [GroupValue(h)] && Joined([h], COLON) == h
  {
    hide GroupValue, GoodGroup;
  }

  lemma MoreGroups(t: Bytes, rest: seq<Bytes>, v: seq<nat>)
    requires GoodGroup(t) && GoodGroups(rest)
    ensures GoodGroups([t] + rest) && v + [GroupValue(t)] + GroupValues(rest) == v + GroupValues([t] + rest)
  {
    hide GroupValue, GoodGroup;
    var ts := [t] + rest;
    forall i | 0 <= i < |ts| ensures GoodGroup(ts[i]) {
      assert i > 0 ==> ts[i] == rest[i - 1];
    }
    assert GroupValues(ts) == [GroupValue(t)] + GroupValues(rest);
    assert v + [GroupValue(t)] + GroupValues(rest) == v + ([GroupValue(t)] + GroupValues(rest));
  }

  // Behind the gap.

  lemma {:induction false} TailSound(s: Bytes, g: Groups) returns (ts: seq<Bytes>)
    requires g.gap && Ipv6From(s, g).Some?
    ensures ts != [] && GoodGroups(ts) && s == Joined(ts, COLON)
    ensures Ipv6From(s, g) == Some(g.(tail := g.tail + GroupValues(ts))) && |g.head| + |g.tail| + |ts| <= 8
    decreases |s|
  {
    hide Ipv6From, GoodGroup, GroupValue, GroupValues, GoodGroups, Joined;
    var t, joint, more := GroupTaken(s, g);
    if joint.End? {
      ts := [t];
      LastGroup(t, g);
      OneGroup(t);
    } else {
      NextGroup(t, more, g);
      var rest := TailSound(more, AddGroup(g, GroupValue(t)));
      ts := [t] + rest;
      JoinedCons(t, rest, COLON);
      MoreGroups(t, rest, g.tail);
    }
  }

  lemma {:induction false} TailComplete(ts: seq<Bytes>, g: Groups)
    requires g.gap && ts != [] && GoodGroups(ts) && |g.head| + |g.tail| + |ts| <= 8
    ensures Ipv6From(Joined(ts, COLON), g) == Some(g.(tail := g.tail + GroupValues(ts)))
    decreases |ts|
  {
    hide Ipv6From, GroupValue, GoodGroup, GroupValues;
    var t := ts[0];
    if |ts| == 1 {
      LastGroup(t, g);
      OneGroup(t);
      assert ts == [t];
    } else {
      var rest := ts[1..];
      JoinedStart(rest);
      NextGroup(t, Joined(rest, COLON), g);
      TailComplete(rest, AddGroup(g, GroupValue(t)));
      MoreGroups(t, rest, g.tail);
      assert ts == [t] + rest;
    }
  }

  lemma JoinedStart(gs: seq<Bytes>)
    requires gs != [] && GoodGroups(gs)
    ensures Joined(gs, COLON) != [] && HexValue(Joined(gs, COLON)[0]).Some? && Joined(gs, COLON)[0] != COLON
  {
    assert GoodGroup(gs[0]);
    assert Joined(gs, COLON)[0] == gs[0][0];
  }

  // Before the gap.

  /** Groups before the gap, and the gap with the groups behind it if there is one. */
  function Ipv6Text(hs: seq<Bytes>, ts: seq<Bytes>, gap: bool): Bytes {
    Joined(hs, COLON) + if gap then [COLON, COLON] + Joined(ts, COLON) else []
  }

  ghost predicate Ipv6Parts(hs: seq<Bytes>, ts: seq<Bytes>, gap: bool) {
    GoodGroups(hs) && GoodGroups(ts) && (!gap ==> ts == [])
  }

  lemma TextCons(h: Bytes, hs: seq<Bytes>, ts: seq<Bytes>, gap: bool)
    requires hs != []
    ensures Ipv6Text([h] + hs, ts, gap) == h + [COLON] + Ipv6Text(hs, ts, gap)
  {
    JoinedCons(h, hs, COLON);
  }

  lemma {:induction false} HeadSound(s: Bytes, g: Groups) returns (hs: seq<Bytes>, ts: seq<Bytes>, gap: bool)
    requires !g.gap && g.tail == [] && Ipv6From(s, g).Some?
    ensures hs != [] && Ipv6Parts(hs, ts, gap) && s == Ipv6Text(hs, ts, gap)
    ensures Ipv6From(s, g) == Some(Groups(g.head + GroupValues(hs), GroupValues(ts), gap))
    ensures |g.head| + |hs| + |ts| <= 8
    decreases |s|
  {
    hide Ipv6From, GoodGroup, GroupValue, GroupValues, GoodGroups, Joined;
    var h, joint, more := GroupTaken(s, g);
    var g1 := AddGroup(g, GroupValue(h));
    NoGroups();
    OneGroup(h);
    hs, ts, gap := [h], [], false;
    match joint
    case End =>
      LastGroup(h, g);
      assert s == h + [];
    case Gap =>
      GapGroup(h, more, g);
      gap := true;
      if more != [] {
        ts := TailSound(more, g1.(gap := true));
        assert [] + GroupValues(ts) == GroupValues(ts);
      }
      assert s == h + ([COLON, COLON] + more);
    case Single =>
      NextGroup(h, more, g);
      var rest: seq<Bytes>;
      rest, ts, gap := HeadSound(more, g1);
      hs := [h] + rest;
      TextCons(h, rest, ts, gap);
      MoreGroups(h, rest, g.head);
  }

  lemma {:induction false} HeadComplete(hs: seq<Bytes>, ts: seq<Bytes>, gap: bool, g: Groups)
    requires !g.gap && g.tail == [] && hs != [] && Ipv6Parts(hs, ts, gap) && |g.head| + |hs| + |ts| <= 8
    ensures Ipv6From(Ipv6Text(hs, ts, gap), g) == Some(Groups(g.head + GroupValues(hs), GroupValues(ts), gap))
    decreases |hs|
  {
    hide Ipv6From, GoodGroup, GroupValue, GroupValues, Joined;
    var h := hs[0];
    if |hs| > 1 {
      var rest := hs[1..];
      assert hs == [h] + rest;
      TextCons(h, rest, ts, gap);
      JoinedStart(rest);
      NextGroup(h, Ipv6Text(rest, ts, gap), g);
      HeadComplete(rest, ts, gap, AddGroup(g, GroupValue(h)));
      MoreGroups(h, rest, g.head);
    } else {
      assert hs == [h];
      LastHead(h, ts, gap, g);
    }
  }

  lemma LastHead(h: Bytes, ts: seq<Bytes>, gap: bool, g: Groups)
    requires !g.gap && g.tail == [] && GoodGroup(h) && Ipv6Parts([h], ts, gap) && |g.head| + 1 + |ts| <= 8
    ensures Ipv6From(Ipv6Text([h], ts, gap), g) == Some(Groups(g.head + GroupValues([h]), GroupValues(ts), gap))
  {
    hide Ipv6From, GoodGroup, GroupValue, GroupValues, GoodGroups, Joined;
    NoGroups();
    OneGroup(h);
    if gap {
      var more := Joined(ts, COLON);
      GapGroup(h, more, g);
      assert h + ([COLON, COLON] + more) == h + [COLON, COLON] + more;
      if ts != [] {
        JoinedStart(ts);
        TailComplete(ts, AddGroup(g, GroupValue(h)).(gap := true));
        assert [] + GroupValues(ts) == GroupValues(ts);
      }
    } else {
      LastGroup(h, g);
      assert h + [] == h;
    }
  }

  /** Zeros between the groups, up to eight. */
  function Filled(head: seq<nat>, tail: seq<nat>): seq<nat>
    requires |head| + |tail| <= 8
  {
    head + seq(8 - |head| - |tail|, _ => 0) + tail
  }

  /** Eight groups, or at most seven with a gap that stands for the missing zeros. */
  ghost predicate Spells(s: Bytes, hs: seq<Bytes>, ts: seq<Bytes>, gap: bool, v: seq<nat>) {
    && Ipv6Parts(hs, ts, gap) && s == Ipv6Text(hs, ts, gap)
    && (if gap then |hs| + |ts| <= 7 else |hs| == 8)
    && v == Filled(GroupValues(hs), GroupValues(ts))
  }

  lemma FilledIs(head: seq<nat>, tail: seq<nat>)
    requires |head| + |tail| <= 8
    ensures var total := |head| + |tail|; head + seq(8 - total, _ => 0) + tail == Filled(head, tail)
    ensures Filled([], []) == [0, 0, 0, 0, 0, 0, 0, 0]
  {
  }

  /** The parse of a text that does not begin with the gap, and of one that does. */
  lemma ParseFrom(s: Bytes)
    requires 0 < |s| <= 45 && s != [COLON, COLON] && (s[0] == COLON ==> |s| >= 2 && s[1] == COLON)
    ensures
      var r := if s[0] == COLON then Ipv6From(s[2..], Groups([], [], true)) else Ipv6From(s, Groups([], [], false));
      ParseIpv6(s) ==
        if r.None? then None
        else
          var total := |r.value.head| + |r.value.tail|;
          if (if r.value.gap then total > 7 else total != 8) then None else Some(Filled(r.value.head, r.value.tail))
  {
    hide Ipv6From, Filled;
    var r := if s[0] == COLON then Ipv6From(s[2..], Groups([], [], true)) else Ipv6From(s, Groups([], [], false));
    if r.Some? && |r.value.head| + |r.value.tail| <= 8 {
      FilledIs(r.value.head, r.value.tail);
    }
  }

  lemma ParseSound(s: Bytes) returns (hs: seq<Bytes>, ts: seq<Bytes>, gap: bool)
    requires ParseIpv6(s).Some?
    ensures |s| <= 45 && Spells(s, hs, ts, gap, ParseIpv6(s).value)
  {
    hide Ipv6From, GoodGroup, GroupValue, Joined, Filled;
    NoGroups();
    if s == [COLON, COLON] {
      hs, ts, gap := [], [], true;
      FilledIs([], []);
    } else {
      ParseFrom(s);
      if s[0] == COLON {
        hs, gap := [], true;
        ts := TailSound(s[2..], Groups([], [], true));
        assert [] + GroupValues(ts) == GroupValues(ts);
        assert s == [COLON, COLON] + s[2..];
      } else {
        hs, ts, gap := HeadSound(s, Groups([], [], false));
        assert [] + GroupValues(hs) == GroupValues(hs);
      }
    }
  }

  lemma ParseComplete(s: Bytes, hs: seq<Bytes>, ts: seq<Bytes>, gap: bool, v: seq<nat>)
    requires Spells(s, hs, ts, gap, v) && |s| <= 45
    ensures ParseIpv6(s) == Some(v)
  {
    hide Ipv6From, GoodGroup, GroupValue, Joined, Filled, ParseIpv6;
    if hs != [] {
      ParseFromHead(s, hs, ts, gap);
    } else if ts != [] {
      ParseFromGap(s, ts);
      assert hs == [] && gap;
    } else {
      NoGroups();
      FilledIs([], []);
      assert s == [COLON, COLON] && v == Filled([], []);
      ParseNothing();
    }
  }

  lemma ParseNothing()
    ensures ParseIpv6([COLON, COLON]) == Some([0, 0, 0, 0, 0, 0, 0, 0])
  {
  }

  lemma ParseFromHead(s: Bytes, hs: seq<Bytes>, ts: seq<Bytes>, gap: bool)
    requires hs != [] && Ipv6Parts(hs, ts, gap) && s == Ipv6Text(hs, ts, gap) && |s| <= 45
    requires if gap then |hs| + |ts| <= 7 else |hs| == 8
    ensures ParseIpv6(s) == Some(Filled(GroupValues(hs), GroupValues(ts)))
  {
    hide Ipv6From, GoodGroup, GroupValue, Joined, Filled, ParseIpv6;
    JoinedStart(hs);
    HeadComplete(hs, ts, gap, Groups([], [], false));
    assert [] + GroupValues(hs) == GroupValues(hs);
    assert s[0] == Joined(hs, COLON)[0];
    ParseFrom(s);
  }

  lemma ParseFromGap(s: Bytes, ts: seq<Bytes>)
    requires ts != [] && Ipv6Parts([], ts, true) && s == Ipv6Text([], ts, true) && |s| <= 45 && |ts| <= 7
    ensures ParseIpv6(s) == Some(Filled(GroupValues([]), GroupValues(ts)))
  {
    hide Ipv6From, GoodGroup, GroupValue, Joined, Filled, ParseIpv6;
    NoGroups();
    assert s == [COLON, COLON] + Joined(ts, COLON);
    assert s[2..] == Joined(ts, COLON);
    JoinedStart(ts);
    TailComplete(ts, Groups([], [], true));
    assert [] + GroupValues(ts) == GroupValues(ts);
    ParseFrom(s);
  }

  /** A literal of at most 45 characters is read as an address if and only if its groups spell it. */
  lemma Ipv6Iff(s: Bytes, v: seq<nat>)
    ensures ParseIpv6(s) == Some(v) <==> |s| <= 45 && exists hs, ts, gap :: Spells(s, hs, ts, gap, v)
  {
    hide Spells;
    if ParseIpv6(s) == Some(v) {
      var hs, ts, gap := ParseSound(s);
    }
    if hs, ts, gap :| |s| <= 45 && Spells(s, hs, ts, gap, v) {
      ParseComplete(s, hs, ts, gap, v);
    }
  }

  // ---- hosts ----

  /** The address is unspecified, loopback or multicast. */
  predicate Unreachable6(v: seq<nat>)
    requires |v| == 8
  {
    || (forall i :: 0 <= i < 8 ==> v[i] == 0)
    || (v[7] == 1 && forall i :: 0 <= i < 7 ==> v[i] == 0)
    || 0xFF00 <= v[0] <= 0xFFFF
  }

  lemma GroupBound(g: Bytes)
    requires GoodGroup(g)
    ensures GroupValue(g) < 0x1_0000
  {
    hide HexValue;
    forall i | 0 <= i < |g| ensures HexValue(g[i]).value < 16 {
      DigitBound(g[i]);
    }
  }

  lemma DigitBound(c: U8)
    requires HexValue(c).Some?
    ensures HexValue(c).value < 16
  {
  }

  lemma SpellsBound(s: Bytes, hs: seq<Bytes>, ts: seq<Bytes>, gap: bool, v: seq<nat>)
    requires Spells(s, hs, ts, gap, v)
    ensures |v| == 8 && v[0] < 0x1_0000
  {
    hide GroupValue, GoodGroup, Joined;
    if hs != [] {
      GroupBound(hs[0]);
    } else if |ts| > 0 {
      GroupBound(ts[0]);
    }
  }

  /**
   A host is accepted if and only if it is a bracketed IPv6 literal of a usable address, a usable IPv4 address,
   or, where it is no IPv4 address, a host name.
   */
  lemma HostIff(h: Bytes)
    ensures ValidHost(h) <==>
      && 0 < |h| <= 255
      && if h[0] == 91 then
           && |h| >= 4 && h[|h| - 1] == 93
           && exists v :: ParseIpv6(h[1..|h| - 1]) == Some(v) && |v| == 8 && !Unreachable6(v)
         else if ParseIpv4(h).Some? then UsableIpv4(ParseIpv4(h).value)
         else ValidHostname(h)
  {
    hide ParseIpv6, ParseIpv4, ValidHostname, UsableIpv4;
    if |h| >= 4 && h[0] == 91 {
      var s := h[1..|h| - 1];
      if ParseIpv6(s).Some? {
        var v := ParseIpv6(s).value;
        var hs, ts, gap := ParseSound(s);
        SpellsBound(s, hs, ts, gap, v);
        assert v == [0, 0, 0, 0, 0, 0, 0, 0] <==> forall i :: 0 <= i < 8 ==> v[i] == 0;
        assert v == [0, 0, 0, 0, 0, 0, 0, 1] <==> v[7] == 1 && forall i :: 0 <= i < 7 ==> v[i] == 0;
      }
    }
  }

  // ---- tunnel addresses ----

  function TunnelAddress(d: U8): nat {
    ((10 * 256 + 77) * 256 + 77) * 256 + d
  }

  /** A tunnel address is one of 10.77.77.1 to 10.77.77.254. */
  lemma TunnelIpIff(s: Bytes)
    ensures ValidTunnelIp(s) <==> exists d: U8 :: 1 <= d <= 254 && ParseIpv4(s) == Some(TunnelAddress(d))
  {
    hide ParseIpv4;
    if ValidTunnelIp(s) {
      var v := ParseIpv4(s).value;
      assert v == (v / 256) * 256 + v % 256 == TunnelAddress(v % 256);
    }
  }

  /** The only routes are those to one tunnel address each. */
  lemma RouteAllowedIff(s: Bytes)
    ensures RouteAllowed(s) <==> exists ip :: ValidTunnelIp(ip) && s == ip + HOST_ROUTE
  {
    hide ParseIpv4, ValidTunnelIp;
    if RouteAllowed(s) {
      var i := FirstOf(s, SLASH);
      var l := s[i + 1..];
      if |l| == 1 {
        OneDigit(l);
      } else {
        TwoDigits(l);
      }
      assert l == [51, 50];
      assert s == s[..i] + HOST_ROUTE;
    }
    if ip :| ValidTunnelIp(ip) && s == ip + HOST_ROUTE {
      TunnelRouteAllowed(ip);
    }
  }
}
