/** The two reassembly loops: src/media/nalu.cpp:7-104. */
module NaluReassembly {
  import opened Wire
  import opened Bytes
  import opened Nalu

  /** The output buffer, the recorded ranges and the open fragment chain. */
  class Reassembler {
    var out: Bytes
    var ranges: seq<Range>
    var fuActive: bool
    var fuOff: nat

    constructor (out: Bytes, ranges: seq<Range>)
      ensures Valid() && State() == Buffer(out, ranges, None)
    {
      this.out := out;
      this.ranges := ranges;
      fuActive := false;
      fuOff := 0;
    }

    ghost predicate Valid()
      reads this
    {
      fuActive ==> 4 <= fuOff <= |out|
    }

    ghost function State(): Output
      reads this
      requires Valid()
    {
      Buffer(out, ranges, if fuActive then Some(fuOff) else None)
    }

    /** `emit`: one NAL from two pieces. */
    method EmitNal(a: Bytes, b: Bytes)
      requires Valid()
      modifies this
      ensures Valid() && State() == Append(old(State()), [a + b])
    {
      AppendOne(State(), [], a + b);
      assert [] + [a + b] == [a + b];
      assert out + AnnexB([]) == out && ranges + RangesAt(|out|, []) == ranges;
      assert out + START_CODE + (a + b) == out + START_CODE + a + b;
      out := out + START_CODE;
      var off := |out|;
      out := out + a;
      out := out + b;
      ranges := ranges + [Range(off, |a| + |b|)];
    }

    /** The units of an aggregate. */
    method EmitUnits(pay: Bytes, start: nat)
      requires Valid()
      modifies this
      ensures Valid() && State() == Append(old(State()), UnitsFrom(pay, start))
    {
      hide Append, State, UnitsFrom;
      var pos := start;
      while pos + 2 <= |pay|
        invariant Valid() && Append(State(), UnitsFrom(pay, pos)) == Append(old(State()), UnitsFrom(pay, start))
      {
        var size := Be16(pay, pos);
        UnitsHere(pay, pos);
        pos := pos + 2;
        if size == 0 || pos + size > |pay| {
          NothingAppended(State());
          return;
        }
        var n := pay[pos..pos + size];
        AppendMore(State(), [n], UnitsFrom(pay, pos + size));
        assert n + [] == n;
        EmitNal(n, []);
        pos := pos + size;
      }
      UnitsEnd(pay, pos);
      NothingAppended(State());
    }

    /** A fragment whose header byte is `header`. */
    method AddFragment(header: U8, head: Bytes, data: Bytes)
      requires Valid()
      modifies this
      ensures Valid() && State() == Act(old(State()), FragmentAction(header, head, data))
    {
      if header >= 0x80 {
        assert out + START_CODE + (head + data) == out + START_CODE + head + data;
        out := out + START_CODE;
        fuOff := |out|;
        out := out + head;
        out := out + data;
        fuActive := true;
      } else if fuActive {
        out := out + data;
        if header / 0x40 % 2 == 1 {
          ranges := ranges + [Range(fuOff, |out| - fuOff)];
          fuActive := false;
        }
      }
    }

    method AddHevc(pay: Bytes)
      requires Valid()
      modifies this
      ensures Valid() && State() == Act(old(State()), HevcAction(pay))
    {
      hide Append, UnitsFrom;
      if |pay| < 2 {
        return;
      }
      var nt := HevcType(pay[0]);
      if nt == AP {
        EmitUnits(pay, 4);
      } else if nt == FU {
        if |pay| < 6 {
          return;
        }
        var hdr0 := pay[0] / 0x80 * 0x80 + pay[0] % 2 + 2 * (pay[2] % 64);
        AddFragment(pay[2], [hdr0, pay[1]], pay[5..]);
      } else {
        if |pay| < 4 {
          return;
        }
        EmitNal(pay[..2], pay[4..]);
      }
    }

    method AddAvc(pay: Bytes)
      requires Valid()
      modifies this
      ensures Valid() && State() == Act(old(State()), AvcAction(pay))
    {
      hide Append, UnitsFrom;
      if pay == [] || pay[0] == CONFIG_MARKER {
        return;
      }
      var t := AvcType(pay[0]);
      if t == FU_A || t == FU_B {
        var off := if t == FU_B then 4 else 2;
        if |pay| < off {
          return;
        }
        AddFragment(pay[1], [pay[0] / 0x20 * 0x20 + pay[1] % 32], pay[off..]);
      } else if t == STAP_A {
        EmitUnits(pay, 3);
      } else if 1 <= t <= 23 {
        if |pay| < 2 {
          return;
        }
        assert pay + [] == pay;
        EmitNal(pay, []);
      }
    }

    /** Discards a chain whose end never came. */
    method Close()
      requires Valid()
      modifies this
      ensures Valid() && State() == Finish(old(State()))
    {
      if fuActive {
        out := out[..fuOff - 4];
        fuActive := false;
      }
    }
  }

  lemma UnitsHere(pay: Bytes, pos: nat)
    requires pos + 2 <= |pay|
    ensures var size := Be16(pay, pos);
      UnitsFrom(pay, pos) == if size == 0 || pos + 2 + size > |pay| then []
                             else [pay[pos + 2..pos + 2 + size]] + UnitsFrom(pay, pos + 2 + size)
  {
  }

  lemma UnitsEnd(pay: Bytes, pos: nat)
    requires pos + 2 > |pay|
    ensures UnitsFrom(pay, pos) == []
  {
  }

  lemma NothingAppended(o: Output)
    ensures Append(o, []) == o
  {
    assert o.out + AnnexB([]) == o.out && o.ranges + RangesAt(|o.out|, []) == o.ranges;
  }

  method ReassembleHevc(pays: seq<Bytes>, out: Bytes, ranges: seq<Range>) returns (out': Bytes, ranges': seq<Range>)
    ensures var w := Reassemble(Hevc, pays, out, ranges); out' == w.out && ranges' == w.ranges
  {
    hide Act, HevcAction;
    var r := new Reassembler(out, ranges);
    ghost var o := r.State();
    for i := 0 to |pays|
      invariant r.Valid() && r.State() == Run(Hevc, o, pays[..i])
    {
      assert pays[..i + 1][..i] == pays[..i];
      r.AddHevc(pays[i]);
    }
    assert pays[..|pays|] == pays;
    r.Close();
    return r.out, r.ranges;
  }

  method ReassembleAvc(pays: seq<Bytes>, out: Bytes, ranges: seq<Range>) returns (out': Bytes, ranges': seq<Range>)
    ensures var w := Reassemble(Avc, pays, out, ranges); out' == w.out && ranges' == w.ranges
  {
    hide Act, AvcAction;
    var r := new Reassembler(out, ranges);
    ghost var o := r.State();
    for i := 0 to |pays|
      invariant r.Valid() && r.State() == Run(Avc, o, pays[..i])
    {
      assert pays[..i + 1][..i] == pays[..i];
      r.AddAvc(pays[i]);
    }
    assert pays[..|pays|] == pays;
    r.Close();
    return r.out, r.ranges;
  }
}
