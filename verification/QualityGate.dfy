/** The keyframe gate as an object: src/media/quality_gate.cpp:6-73. */
module QualityGate {
  import opened GateModel
  import opened GateRuns

  class FrameQualityGate {
    const tuning: Tuning
    var tiles: seq<TileState>
    var required: set<int>
    var observed: set<int>
    var firLast: seq<int>
    var attempts: seq<nat>
    var capWarned: seq<bool>
    var cycles: seq<nat>
    var idrAt: seq<int>
    var lastConcealment: int
    var lastUnreliable: int
    var flickers: nat

    /** The fields agree in length, and every tile with an observed IDR is a required one. */
    ghost predicate Valid()
      reads this
    {
      Shaped(Fields()) && Nested(Fields())
    }

    ghost function Fields(): GateState
      reads this
    {
      GateState(tiles, required, observed, firLast, attempts, capWarned, cycles, idrAt,
                lastConcealment, lastUnreliable, flickers)
    }

    ghost function State(): Gate
      reads this
      requires Valid()
    {
      Fields()
    }

    constructor (n: nat, tuning: Tuning)
      ensures Valid() && State() == Fresh(n) && this.tuning == tuning
    {
      this.tuning := tuning;
      tiles := seq(n, _ => TileState(0, false));
      required, observed := {}, {};
      firLast, attempts := seq(n, _ => 0), seq(n, _ => 0);
      capWarned, cycles, idrAt := seq(n, _ => false), seq(n, _ => 0), seq(n, _ => 0);
      lastConcealment, lastUnreliable, flickers := 0, 0, 0;
    }

    method NoteDecodeError(tile: int, now: int, reliable: bool)
      requires Valid()
      modifies this
      ensures Valid() && |tiles| == old(|tiles|)
      ensures State() == MarkDecodeError(tuning, old(State()), tile, now, reliable)
    {
      hide Demand;
      if tile < 0 || tile >= |tiles| {
        return;
      }
      lastConcealment := now;
      if !reliable {
        lastUnreliable := now;
      }
      if idrAt[tile] > 0 && now - idrAt[tile] < tuning.grace {
        return;
      }
      tiles := tiles[tile := TileState(tiles[tile].badStreak + 1, true)];
      if tile !in required {
        Require(tile);
      }
    }

    method Require(tile: int)
      requires Valid() && 0 <= tile < |tiles|
      modifies this
      ensures Valid() && |tiles| == old(|tiles|) && State() == Demand(old(State()), tile)
    {
      required := required + {tile};
      observed := observed - {tile};
      attempts := attempts[tile := 0];
      capWarned := capWarned[tile := false];
      flickers := flickers + 1;
      cycles := cycles[tile := cycles[tile] + 1];
    }

    method NoteIdr(tile: int, now: int, suspicious: bool)
      requires Valid()
      modifies this
      ensures Valid() && State() == MarkIdrObserved(old(State()), tile, now, suspicious)
    {
      if tile < 0 || tile >= |tiles| {
        return;
      }
      idrAt := idrAt[tile := now];
      if suspicious {
        return;
      }
      if tile in required {
        observed := observed + {tile};
      }
    }

    method NoteClean(tile: int, now: int)
      requires Valid()
      modifies this
      ensures Valid() && State() == MarkClean(tuning, old(State()), tile, now)
    {
      if tile < 0 || tile >= |tiles| {
        return;
      }
      tiles := tiles[tile := TileState(0, false)];
      if tile in required && tile in observed && now - lastUnreliable >= tuning.quiet {
        required := required - {tile};
        observed := observed - {tile};
        attempts := attempts[tile := 0];
        capWarned := capWarned[tile := false];
        if cycles[tile] >= 3 {
          cycles := cycles[tile := 0];
        }
      }
    }

    /** The request goes out for tile 0 or not at all. */
    method ConsumeFirRequest(now: int) returns (request: set<int>)
      requires Valid()
      modifies this
      ensures Valid() && State() == ConsumeFir(tuning, old(State()), now)
      ensures request == if Grants(tuning, old(State()), now) then {0} else {}
    {
      NoTilesNoneRequired(required, |tiles|);
      if required == {} {
        return {};
      }
      var capped := attempts[0] >= tuning.cap;
      var interval := if capped then tuning.slow else tuning.rearm;
      if now - firLast[0] < interval {
        return {};
      }
      firLast := firLast[0 := now];
      attempts := attempts[0 := attempts[0] + 1];
      if capped && !capWarned[0] {
        capWarned := capWarned[0 := true];
      }
      return {0};
    }

    method ForceKeyframeAll(now: int)
      requires Valid()
      modifies this
      ensures Valid() && State() == ForceFirst(tuning, old(State()), now, |old(tiles)|)
    {
      hide MarkDecodeError;
      var i := 0;
      while i < |tiles|
        invariant Valid() && 0 <= i <= |tiles| == |old(tiles)|
        invariant State() == ForceFirst(tuning, old(State()), now, i)
      {
        NoteDecodeError(i, now, true);
        i := i + 1;
      }
    }

    method ForgetTile(t: int)
      requires Valid()
      modifies this
      ensures Valid() && |tiles| == old(|tiles|)
      ensures State() == ResetTile(old(State()), t)
    {
      if t < 0 || t >= |tiles| {
        return;
      }
      tiles := tiles[t := TileState(0, false)];
      required := required - {t};
      observed := observed - {t};
      attempts := attempts[t := 0];
      capWarned := capWarned[t := false];
      cycles := cycles[t := 0];
      idrAt := idrAt[t := 0];
    }

    method Reset()
      requires Valid()
      modifies this
      ensures Valid() && State() == ResetFirst(old(State()), |old(tiles)|)
    {
      hide ResetTile;
      var i := 0;
      while i < |tiles|
        invariant Valid() && 0 <= i <= |tiles| == |old(tiles)|
        invariant State() == ResetFirst(old(State()), i)
      {
        ForgetTile(i);
        i := i + 1;
      }
    }
  }

  lemma NoTilesNoneRequired(required: set<int>, n: nat)
    requires forall t :: t in required ==> 0 <= t < n
    ensures n == 0 ==> required == {}
  {
    if required != {} {
      var t := AnyElement(required);
      assert 0 <= t < n;
    }
  }

  lemma AnyElement<T>(s: set<T>) returns (x: T)
    requires s != {}
    ensures x in s
  {
    x :| x in s;
  }
}
