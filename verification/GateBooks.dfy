/** The books the keyframe gate keeps for its log lines, over every run: src/media/quality_gate.cpp:9-73. */
module GateBooks {
  import opened GateModel
  import opened GateRuns
  import opened GateRequests

  /** Tile `t` becomes required between the states. */
  predicate Entered(g: Gate, r: Gate, t: int) {
    t !in g.required && t in r.required
  }

  // ---- the last concealment ----

  /** The last error of any tile or forced keyframe, suppressed or not. */
  function LastError(n: nat, es: seq<Event>, i: nat): int
    requires i <= |es|
  {
    if i == 0 then 0
    else if (es[i - 1].DecodeError? && 0 <= es[i - 1].tile < n) || (es[i - 1].ForceAll? && n > 0) then es[i - 1].now
    else LastError(n, es, i - 1)
  }

  lemma {:induction false} ForceConceals(c: Tuning, g: Gate, now: int, k: nat)
    requires k <= |g.tiles|
    ensures ForceFirst(c, g, now, k).lastConcealment == if k > 0 then now else g.lastConcealment
  {
    if k > 0 {
      ForceConceals(c, g, now, k - 1);
    }
  }

  lemma {:induction false} ResetConceals(g: Gate, k: nat)
    ensures ResetFirst(g, k).lastConcealment == g.lastConcealment && ResetFirst(g, k).flickers == g.flickers
  {
    if k > 0 {
      ResetConceals(g, k - 1);
    }
  }

  lemma {:induction false} ConcealmentIs(c: Tuning, n: nat, es: seq<Event>, i: nat)
    requires i <= |es|
    ensures After(c, n, es, i).lastConcealment == LastError(n, es, i)
  {
    if i > 0 {
      ConcealmentIs(c, n, es, i - 1);
      var g := After(c, n, es, i - 1);
      match es[i - 1] {
        case ForceAll(now) => ForceConceals(c, g, now, |g.tiles|);
        case ResetAll => ResetConceals(g, |g.tiles|);
        case _ =>
      }
    }
  }

  // ---- cycles of a tile ----

  /** How often the tile became required since its last reset, or since a recovery that found three or more. */
  ghost function Cycles(c: Tuning, n: nat, es: seq<Event>, i: nat, t: int): nat
    requires i <= |es|
  {
    if i == 0 then 0
    else
      var before := Cycles(c, n, es, i - 1, t);
      var g, r, e := After(c, n, es, i - 1), After(c, n, es, i), es[i - 1];
      if e == ResetAll || e == ResetOne(t) then 0
      else if Entered(g, r, t) then before + 1
      else if Entered(r, g, t) && before >= 3 then 0
      else before
  }

  lemma ErrorCycles(c: Tuning, g: Gate, tile: int, now: int, reliable: bool, t: int)
    requires HasTile(g, t)
    ensures var r := MarkDecodeError(c, g, tile, now, reliable);
      && r.cycles[t] == g.cycles[t] + (if Entered(g, r, t) then 1 else 0) && !Entered(r, g, t)
      && (t != tile ==> (t in r.required <==> t in g.required))
  {
  }

  lemma {:induction false} ForceCycles(c: Tuning, g: Gate, now: int, k: nat, t: int)
    requires HasTile(g, t)
    ensures var r := ForceFirst(c, g, now, k);
      r.cycles[t] == g.cycles[t] + (if Entered(g, r, t) then 1 else 0) && !Entered(r, g, t)
  {
    hide MarkDecodeError;
    if k > 0 {
      ForceCycles(c, g, now, k - 1, t);
      ErrorCycles(c, ForceFirst(c, g, now, k - 1), k - 1, now, true, t);
    }
  }

  lemma {:induction false} ResetCycles(g: Gate, k: nat, t: int)
    requires HasTile(g, t)
    ensures ResetFirst(g, k).cycles[t] == if t < k then 0 else g.cycles[t]
  {
    if k > 0 {
      ResetCycles(g, k - 1, t);
    }
  }

  lemma StepCycles(c: Tuning, g: Gate, e: Event, t: int)
    requires HasTile(g, t)
    ensures var r := Apply(c, g, e);
      r.cycles[t] ==
        if e == ResetAll || e == ResetOne(t) then 0
        else if Entered(g, r, t) then g.cycles[t] + 1
        else if Entered(r, g, t) && g.cycles[t] >= 3 then 0
        else g.cycles[t]
  {
    hide MarkDecodeError;
    match e
    case DecodeError(tile, now, reliable) => ErrorCycles(c, g, tile, now, reliable, t);
    case ForceAll(now) => ForceCycles(c, g, now, |g.tiles|, t);
    case ResetAll => ResetCycles(g, |g.tiles|, t);
    case _ =>
  }

  lemma {:induction false} CyclesAre(c: Tuning, n: nat, es: seq<Event>, i: nat, t: int)
    requires i <= |es| && 0 <= t < n
    ensures After(c, n, es, i).cycles[t] == Cycles(c, n, es, i, t)
  {
    hide Apply;
    if i > 0 {
      CyclesAre(c, n, es, i - 1, t);
      StepCycles(c, After(c, n, es, i - 1), es[i - 1], t);
    }
  }

  // ---- all entries ----

  /** How many of the first `n` tiles become required between the states. */
  function CountEntered(g: Gate, r: Gate, n: nat): nat {
    if n == 0 then 0 else CountEntered(g, r, n - 1) + if Entered(g, r, n - 1) then 1 else 0
  }

  function Flickers(c: Tuning, n: nat, es: seq<Event>, i: nat): nat
    requires i <= |es|
  {
    if i == 0 then 0
    else Flickers(c, n, es, i - 1) + CountEntered(After(c, n, es, i - 1), After(c, n, es, i), n)
  }

  lemma {:induction false} NoneEntered(g: Gate, r: Gate, n: nat)
    requires r.required <= g.required
    ensures CountEntered(g, r, n) == 0
  {
    if n > 0 {
      NoneEntered(g, r, n - 1);
    }
  }

  /** Entries add up over a state in between after which only tile `t` may enter. */
  lemma {:induction false} OneMoreEntered(g: Gate, m: Gate, r: Gate, t: int, n: nat)
    requires g.required <= m.required && r.required == m.required + (if Entered(m, r, t) then {t} else {})
    ensures CountEntered(g, r, n) == CountEntered(g, m, n) + if Entered(m, r, t) && 0 <= t < n then 1 else 0
  {
    if n > 0 {
      OneMoreEntered(g, m, r, t, n - 1);
    }
  }

  lemma ErrorFlickers(c: Tuning, g: Gate, tile: int, now: int, reliable: bool)
    ensures var r := MarkDecodeError(c, g, tile, now, reliable);
      && r.required == g.required + (if Entered(g, r, tile) then {tile} else {})
      && r.flickers == g.flickers + (if Entered(g, r, tile) then 1 else 0)
      && (Entered(g, r, tile) ==> HasTile(g, tile)) && |r.tiles| == |g.tiles|
  {
  }

  lemma {:induction false} ForceFlickers(c: Tuning, g: Gate, now: int, k: nat)
    ensures var r := ForceFirst(c, g, now, k);
      g.required <= r.required && r.flickers == g.flickers + CountEntered(g, r, |g.tiles|)
  {
    hide MarkDecodeError;
    if k == 0 {
      NoneEntered(g, g, |g.tiles|);
    } else {
      var m := ForceFirst(c, g, now, k - 1);
      ForceFlickers(c, g, now, k - 1);
      ErrorFlickers(c, m, k - 1, now, true);
      OneMoreEntered(g, m, MarkDecodeError(c, m, k - 1, now, true), k - 1, |g.tiles|);
    }
  }

  lemma StepFlickers(c: Tuning, g: Gate, e: Event)
    ensures Apply(c, g, e).flickers == g.flickers + CountEntered(g, Apply(c, g, e), |g.tiles|)
  {
    hide MarkDecodeError, CountEntered;
    var n := |g.tiles|;
    match e
    case DecodeError(tile, now, reliable) =>
      ErrorFlickers(c, g, tile, now, reliable);
      NoneEntered(g, g, n);
      OneMoreEntered(g, g, Apply(c, g, e), tile, n);
    case ForceAll(now) => ForceFlickers(c, g, now, n);
    case ResetAll =>
      ResetConceals(g, n);
      ResetShrinks(g, n);
      NoneEntered(g, Apply(c, g, e), n);
    case _ => NoneEntered(g, Apply(c, g, e), n);
  }

  /** In every run the flicker count is the number of times any tile became required. */
  lemma {:induction false} FlickersAre(c: Tuning, n: nat, es: seq<Event>, i: nat)
    requires i <= |es|
    ensures After(c, n, es, i).flickers == Flickers(c, n, es, i)
  {
    hide Apply, CountEntered;
    if i > 0 {
      FlickersAre(c, n, es, i - 1);
      StepFlickers(c, After(c, n, es, i - 1), es[i - 1]);
    }
  }

  // ---- the warning ----

  /** Only tile 0 is ever warned about, and exactly once its requests exceed the cap. */
  ghost predicate WarnedRight(c: Tuning, g: Gate) {
    forall t :: 0 <= t < |g.tiles| ==> (g.capWarned[t] <==> g.attempts[t] > c.cap) && (t > 0 ==> g.attempts[t] == 0)
  }

  lemma {:induction false} ForceWarned(c: Tuning, g: Gate, now: int, k: nat)
    requires WarnedRight(c, g)
    ensures WarnedRight(c, ForceFirst(c, g, now, k))
  {
    if k > 0 {
      ForceWarned(c, g, now, k - 1);
    }
  }

  lemma {:induction false} ResetWarned(c: Tuning, g: Gate, k: nat)
    requires WarnedRight(c, g)
    ensures WarnedRight(c, ResetFirst(g, k))
  {
    if k > 0 {
      ResetWarned(c, g, k - 1);
    }
  }

  lemma {:induction false} AlwaysWarnedRight(c: Tuning, n: nat, es: seq<Event>, i: nat)
    requires i <= |es|
    ensures WarnedRight(c, After(c, n, es, i))
  {
    if i > 0 {
      AlwaysWarnedRight(c, n, es, i - 1);
      var g := After(c, n, es, i - 1);
      match es[i - 1] {
        case ForceAll(now) => ForceWarned(c, g, now, |g.tiles|);
        case ResetAll => ResetWarned(c, g, |g.tiles|);
        case _ =>
      }
    }
  }

  /** In every run the cap warning stands if and only if more requests than the cap went out since tile 0 renewed. */
  lemma WarningIs(c: Tuning, n: nat, es: seq<Event>, i: nat)
    requires i <= |es| && n > 0
    ensures After(c, n, es, i).capWarned[0] <==> Requests(c, n, es, i) > c.cap
  {
    hide After, Requests, LastRequest;
    AlwaysWarnedRight(c, n, es, i);
    RequestsCounted(c, n, es, i);
  }
}
