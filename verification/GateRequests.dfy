/** When the keyframe gate asks, and how long a tile has been bad, over every run: src/media/quality_gate.cpp:9-73. */
module GateRequests {
  import opened GateModel
  import opened GateRuns

  // ---- how many errors in a row ----

  /** The event is an error for the tile, or a forced keyframe, outside the grace of the tile's last IDR. */
  predicate Harms(c: Tuning, es: seq<Event>, i: nat, t: int)
    requires i < |es|
  {
    && (es[i].ForceAll? || (es[i].DecodeError? && es[i].tile == t))
    && !(LastIdr(es, i, t) > 0 && es[i].now - LastIdr(es, i, t) < c.grace)
  }

  /** The event is a clean mark or a reset of the tile. */
  predicate Heals(e: Event, t: int) {
    e == ResetAll || e == ResetOne(t) || (e.Clean? && e.tile == t)
  }

  /** Harmful events since the last healing one. */
  function Streak(c: Tuning, es: seq<Event>, i: nat, t: int): nat
    requires i <= |es|
  {
    if i == 0 || Heals(es[i - 1], t) then 0
    else Streak(c, es, i - 1, t) + if Harms(c, es, i - 1, t) then 1 else 0
  }

  lemma ErrorStreak(c: Tuning, g: Gate, tile: int, now: int, reliable: bool, t: int)
    requires HasTile(g, t)
    ensures var r := MarkDecodeError(c, g, tile, now, reliable);
      r.tiles[t] ==
        if t == tile && !InGrace(c, g, t, now) then TileState(g.tiles[t].badStreak + 1, true) else g.tiles[t]
  {
  }

  lemma {:induction false} ForceStreak(c: Tuning, g: Gate, now: int, k: nat, t: int)
    requires HasTile(g, t)
    ensures var r := ForceFirst(c, g, now, k);
      r.tiles[t] == if t < k && !InGrace(c, g, t, now) then TileState(g.tiles[t].badStreak + 1, true) else g.tiles[t]
  {
    hide MarkDecodeError;
    if k > 0 {
      ForceStreak(c, g, now, k - 1, t);
      ForceKeepsIdr(c, g, now, k - 1);
      ErrorStreak(c, ForceFirst(c, g, now, k - 1), k - 1, now, true, t);
    }
  }

  lemma {:induction false} ResetStreak(g: Gate, k: nat, t: int)
    requires HasTile(g, t)
    ensures ResetFirst(g, k).tiles[t] == if t < k then TileState(0, false) else g.tiles[t]
  {
    if k > 0 {
      ResetStreak(g, k - 1, t);
    }
  }

  lemma StepStreak(c: Tuning, g: Gate, e: Event, t: int)
    requires HasTile(g, t)
    ensures var r := Apply(c, g, e);
      r.tiles[t] ==
        if Heals(e, t) then TileState(0, false)
        else if (e.ForceAll? || (e.DecodeError? && e.tile == t)) && !InGrace(c, g, t, e.now)
        then TileState(g.tiles[t].badStreak + 1, true) else g.tiles[t]
  {
    hide MarkDecodeError;
    match e
    case DecodeError(tile, now, reliable) => ErrorStreak(c, g, tile, now, reliable, t);
    case ForceAll(now) => ForceStreak(c, g, now, |g.tiles|, t);
    case ResetAll => ResetStreak(g, |g.tiles|, t);
    case _ =>
  }

  /** In every run the bad streak of a tile counts its errors since it was last clean or reset. */
  lemma {:induction false} StreakIs(c: Tuning, n: nat, es: seq<Event>, i: nat, t: int)
    requires i <= |es| && 0 <= t < n
    ensures var s := After(c, n, es, i).tiles[t];
      s.badStreak == Streak(c, es, i, t) && (s.needsRealFrame <==> Streak(c, es, i, t) > 0)
  {
    hide Apply, LastIdr;
    if i > 0 {
      StreakIs(c, n, es, i - 1, t);
      IdrTime(c, n, es, i - 1, t);
      StepStreak(c, After(c, n, es, i - 1), es[i - 1], t);
    }
  }

  // ---- when a request goes out ----

  /** The time of the last request, 0 before the first. */
  ghost function LastRequest(c: Tuning, n: nat, es: seq<Event>, i: nat): int
    requires i <= |es|
  {
    if i == 0 then 0
    else if GrantsNow(c, After(c, n, es, i - 1), es[i - 1]) then es[i - 1].now
    else LastRequest(c, n, es, i - 1)
  }

  /** Event `i` resets tile 0, or makes it required or no longer so: the attempts are counted afresh. */
  ghost predicate Renewed(c: Tuning, n: nat, es: seq<Event>, i: nat)
    requires i < |es|
  {
    || es[i] == ResetAll || es[i] == ResetOne(0)
    || (0 in After(c, n, es, i).required) != (0 in After(c, n, es, i + 1).required)
  }

  /** Requests since then. */
  ghost function Requests(c: Tuning, n: nat, es: seq<Event>, i: nat): nat
    requires i <= |es|
  {
    if i == 0 || Renewed(c, n, es, i - 1) then 0
    else Requests(c, n, es, i - 1) + if GrantsNow(c, After(c, n, es, i - 1), es[i - 1]) then 1 else 0
  }

  lemma ErrorAttempts(c: Tuning, g: Gate, tile: int, now: int, reliable: bool)
    requires HasTile(g, 0)
    ensures var r := MarkDecodeError(c, g, tile, now, reliable);
      && r.attempts[0] == (if 0 !in g.required && 0 in r.required then 0 else g.attempts[0])
      && (0 in g.required ==> 0 in r.required)
  {
  }

  lemma {:induction false} ForceAttempts(c: Tuning, g: Gate, now: int, k: nat)
    requires HasTile(g, 0)
    ensures var r := ForceFirst(c, g, now, k);
      && r.attempts[0] == (if 0 !in g.required && 0 in r.required then 0 else g.attempts[0])
      && (0 in g.required ==> 0 in r.required)
  {
    hide MarkDecodeError;
    if k > 0 {
      ForceAttempts(c, g, now, k - 1);
      ErrorAttempts(c, ForceFirst(c, g, now, k - 1), k - 1, now, true);
    }
  }

  lemma {:induction false} ResetAttempts(g: Gate, k: nat)
    requires HasTile(g, 0)
    ensures ResetFirst(g, k).attempts[0] == if k > 0 then 0 else g.attempts[0]
  {
    if k > 0 {
      ResetAttempts(g, k - 1);
    }
  }

  lemma StepRequests(c: Tuning, g: Gate, e: Event)
    requires HasTile(g, 0)
    ensures var r := Apply(c, g, e);
      r.attempts[0] ==
        if e == ResetAll || e == ResetOne(0) || (0 in g.required) != (0 in r.required) then 0
        else if GrantsNow(c, g, e) then g.attempts[0] + 1 else g.attempts[0]
  {
    hide MarkDecodeError;
    match e
    case DecodeError(tile, now, reliable) => ErrorAttempts(c, g, tile, now, reliable);
    case ForceAll(now) => ForceAttempts(c, g, now, |g.tiles|);
    case ResetAll => ResetAttempts(g, |g.tiles|);
    case _ =>
  }

  lemma {:induction false} RequestsCounted(c: Tuning, n: nat, es: seq<Event>, i: nat)
    requires i <= |es| && n > 0
    ensures var g := After(c, n, es, i);
      g.attempts[0] == Requests(c, n, es, i) && g.firLast[0] == LastRequest(c, n, es, i)
  {
    hide Apply, Grants;
    if i > 0 {
      RequestsCounted(c, n, es, i - 1);
      StepRequests(c, After(c, n, es, i - 1), es[i - 1]);
      StepAttempts(c, After(c, n, es, i - 1), es[i - 1]);
    }
  }

  /**
   In every run a request goes out whenever it is asked for, some tile is required and the interval since the
   last request is over, and only then. The interval is the slow one from the cap on, counting the requests
   since tile 0 was last reset, became required or stopped being so.
   */
  lemma RequestIff(c: Tuning, n: nat, es: seq<Event>, i: nat)
    requires i < |es| && es[i].Consume?
    ensures GrantsNow(c, After(c, n, es, i), es[i]) <==>
      && (exists t :: t in After(c, n, es, i).required)
      && es[i].now - LastRequest(c, n, es, i) >= if Requests(c, n, es, i) >= c.cap then c.slow else c.rearm
  {
    hide Apply;
    var g := After(c, n, es, i);
    if n > 0 {
      RequestsCounted(c, n, es, i);
    }
    if g.required != {} {
      var t := SomeTile(g.required);
    }
  }

  lemma SomeTile<T>(s: set<T>) returns (t: T)
    requires s != {}
    ensures t in s
  {
    t :| t in s;
  }
}
