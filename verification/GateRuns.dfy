/** What the keyframe gate keeps over every run: src/media/quality_gate.cpp:9-73. */
module GateRuns {
  import opened GateModel

  ghost predicate Nested(g: Gate) {
    g.observed <= g.required
  }

  // ---- one event, one tile ----

  /** The event takes `t` out of the required tiles. */
  predicate Releases(c: Tuning, g: Gate, e: Event, t: int) {
    || e == ResetAll
    || e == ResetOne(t)
    || (e.Clean? && e.tile == t && Recovers(c, g, t, e.now))
  }

  predicate GoodIdr(e: Event, t: int) {
    e.IdrObserved? && e.tile == t && !e.suspicious
  }

  ghost predicate TileStep(g: Gate, r: Gate, t: int, releases: bool, idr: bool) {
    && (t in g.required ==> (t !in r.required <==> releases))
    && (t in g.required && t in r.required ==> (t in r.observed <==> t in g.observed || idr))
    && (t !in g.required ==> t !in r.observed)
    && (t !in r.required ==> t !in r.observed)
  }

  lemma {:induction false} ForceTile(c: Tuning, g: Gate, now: int, k: nat, t: int)
    requires Nested(g)
    ensures TileStep(g, ForceFirst(c, g, now, k), t, false, false)
  {
    if k > 0 {
      ForceTile(c, g, now, k - 1, t);
    }
  }

  lemma {:induction false} ResetTiles(g: Gate, k: nat, t: int)
    requires Nested(g)
    ensures TileStep(g, ResetFirst(g, k), t, 0 <= t < k && HasTile(g, t), false)
  {
    if k > 0 {
      ResetTiles(g, k - 1, t);
    }
  }

  lemma StepTile(c: Tuning, g: Gate, e: Event, t: int)
    requires Nested(g)
    ensures TileStep(g, Apply(c, g, e), t, Releases(c, g, e, t), GoodIdr(e, t))
  {
    if e.ForceAll? {
      ForceTile(c, g, e.now, |g.tiles|, t);
    } else if e.ResetAll? {
      ResetTiles(g, |g.tiles|, t);
    }
  }

  lemma StepNested(c: Tuning, g: Gate, e: Event)
    requires Nested(g)
    ensures Nested(Apply(c, g, e))
  {
    hide Apply, Releases;
    forall t | t in Apply(c, g, e).observed ensures t in Apply(c, g, e).required {
      StepTile(c, g, e, t);
    }
  }

  /** In every run the observed tiles are required tiles. */
  lemma {:induction false} ObservedAreRequired(c: Tuning, n: nat, es: seq<Event>, i: nat)
    requires i <= |es|
    ensures After(c, n, es, i).observed <= After(c, n, es, i).required
  {
    hide Apply;
    if i > 0 {
      ObservedAreRequired(c, n, es, i - 1);
      StepNested(c, After(c, n, es, i - 1), es[i - 1]);
    }
  }

  // ---- how a tile leaves ----

  /** A good IDR for `t` was seen at event `m` and `t` has been required ever since. */
  ghost predicate SeenAt(c: Tuning, n: nat, es: seq<Event>, i: nat, t: int, m: nat)
    requires i <= |es|
  {
    m < i && GoodIdr(es[m], t) && forall q :: m <= q <= i ==> t in After(c, n, es, q).required
  }

  lemma {:induction false} ObservedIffSeen(c: Tuning, n: nat, es: seq<Event>, i: nat, t: int)
    requires i <= |es|
    ensures t in After(c, n, es, i).observed <==> exists m: nat :: SeenAt(c, n, es, i, t, m)
  {
    hide Apply, After, Releases;
    if i == 0 {
      AfterNothing(c, n, es);
    } else {
      var g, r := After(c, n, es, i - 1), After(c, n, es, i);
      ObservedIffSeen(c, n, es, i - 1, t);
      ObservedAreRequired(c, n, es, i - 1);
      AfterNext(c, n, es, i - 1);
      StepTile(c, g, es[i - 1], t);
      if t in r.observed {
        if GoodIdr(es[i - 1], t) {
          assert SeenAt(c, n, es, i, t, i - 1);
        } else {
          var m: nat :| SeenAt(c, n, es, i - 1, t, m);
          assert SeenAt(c, n, es, i, t, m);
        }
      }
      if m: nat :| SeenAt(c, n, es, i, t, m) {
        assert t in After(c, n, es, i - 1).required && t in r.required;
        if m < i - 1 {
          assert SeenAt(c, n, es, i - 1, t, m);
        }
      }
    }
  }

  lemma AfterNothing(c: Tuning, n: nat, es: seq<Event>)
    ensures After(c, n, es, 0) == Fresh(n)
  {
  }

  lemma AfterNext(c: Tuning, n: nat, es: seq<Event>, i: nat)
    requires i < |es|
    ensures After(c, n, es, i + 1) == Apply(c, After(c, n, es, i), es[i])
  {
    hide Apply;
  }

  /** The time of the last unreliable concealment among the first `i` events. */
  function LastUnreliable(n: nat, es: seq<Event>, i: nat): int
    requires i <= |es|
  {
    if i == 0 then 0
    else if es[i - 1].DecodeError? && !es[i - 1].reliable && 0 <= es[i - 1].tile < n then es[i - 1].now
    else LastUnreliable(n, es, i - 1)
  }

  lemma {:induction false} ForceKeepsTime(c: Tuning, g: Gate, now: int, k: nat)
    ensures ForceFirst(c, g, now, k).lastUnreliable == g.lastUnreliable
  {
    if k > 0 {
      ForceKeepsTime(c, g, now, k - 1);
    }
  }

  lemma {:induction false} ResetKeepsTime(g: Gate, k: nat)
    ensures ResetFirst(g, k).lastUnreliable == g.lastUnreliable
  {
    if k > 0 {
      ResetKeepsTime(g, k - 1);
    }
  }

  lemma {:induction false} UnreliableTime(c: Tuning, n: nat, es: seq<Event>, i: nat)
    requires i <= |es|
    ensures After(c, n, es, i).lastUnreliable == LastUnreliable(n, es, i)
  {
    if i > 0 {
      UnreliableTime(c, n, es, i - 1);
      var g := After(c, n, es, i - 1);
      match es[i - 1] {
        case ForceAll(now) => ForceKeepsTime(c, g, now, |g.tiles|);
        case ResetAll => ResetKeepsTime(g, |g.tiles|);
        case _ =>
      }
    }
  }

  /**
   * A required tile leaves by a reset, or by a clean mark that comes after a good IDR seen while it was
   * required and `quiet` after the last unreliable concealment; and then it does leave.
   */
  lemma LeavesIffRecovered(c: Tuning, n: nat, es: seq<Event>, i: nat, t: int)
    requires i < |es| && t in After(c, n, es, i).required
    ensures t !in After(c, n, es, i + 1).required <==>
      || es[i] == ResetAll
      || es[i] == ResetOne(t)
      || (es[i].Clean? && es[i].tile == t && es[i].now - LastUnreliable(n, es, i) >= c.quiet
          && exists m: nat :: SeenAt(c, n, es, i, t, m))
  {
    hide Apply, After, LastUnreliable;
    ObservedAreRequired(c, n, es, i);
    ObservedIffSeen(c, n, es, i, t);
    UnreliableTime(c, n, es, i);
    AfterNext(c, n, es, i);
    StepTile(c, After(c, n, es, i), es[i], t);
  }

  // ---- how a tile enters ----

  /** When an IDR for `t`, suspicious or not, was last seen and not since forgotten by a reset. */
  function LastIdr(es: seq<Event>, i: nat, t: int): int
    requires i <= |es|
  {
    if i == 0 || es[i - 1] == ResetAll || es[i - 1] == ResetOne(t) then 0
    else if es[i - 1].IdrObserved? && es[i - 1].tile == t then es[i - 1].now
    else LastIdr(es, i - 1, t)
  }

  lemma {:induction false} ForceKeepsIdr(c: Tuning, g: Gate, now: int, k: nat)
    ensures ForceFirst(c, g, now, k).idrAt == g.idrAt
  {
    if k > 0 {
      ForceKeepsIdr(c, g, now, k - 1);
    }
  }

  lemma {:induction false} ResetClearsIdr(g: Gate, k: nat, t: int)
    requires HasTile(g, t)
    ensures ResetFirst(g, k).idrAt[t] == if t < k then 0 else g.idrAt[t]
  {
    if k > 0 {
      ResetClearsIdr(g, k - 1, t);
    }
  }

  lemma {:induction false} IdrTime(c: Tuning, n: nat, es: seq<Event>, i: nat, t: int)
    requires i <= |es| && 0 <= t < n
    ensures After(c, n, es, i).idrAt[t] == LastIdr(es, i, t)
  {
    if i > 0 {
      IdrTime(c, n, es, i - 1, t);
      var g := After(c, n, es, i - 1);
      match es[i - 1] {
        case ForceAll(now) => ForceKeepsIdr(c, g, now, |g.tiles|);
        case ResetAll => ResetClearsIdr(g, |g.tiles|, t);
        case _ =>
      }
    }
  }

  lemma {:induction false} ForceEnters(c: Tuning, g: Gate, now: int, k: nat, t: int)
    requires HasTile(g, t) && t !in g.required
    ensures t in ForceFirst(c, g, now, k).required <==> t < k && !InGrace(c, g, t, now)
  {
    hide MarkDecodeError;
    if k > 0 {
      var h := ForceFirst(c, g, now, k - 1);
      ForceEnters(c, g, now, k - 1, t);
      ForceKeepsIdr(c, g, now, k - 1);
      ErrorEnters(c, h, k - 1, now, true, t);
    }
  }

  lemma ErrorEnters(c: Tuning, g: Gate, tile: int, now: int, reliable: bool, t: int)
    ensures var r := MarkDecodeError(c, g, tile, now, reliable);
      t in r.required <==> t in g.required || (t == tile && HasTile(g, tile) && !InGrace(c, g, tile, now))
  {
  }

  lemma {:induction false} ResetShrinks(g: Gate, k: nat)
    ensures ResetFirst(g, k).required <= g.required
  {
    if k > 0 {
      ResetShrinks(g, k - 1);
    }
  }

  /** A tile becomes required exactly by an error for it, or a forced keyframe, outside the grace of its last IDR. */
  lemma EntersIffError(c: Tuning, n: nat, es: seq<Event>, i: nat, t: int)
    requires i < |es| && 0 <= t < n && t !in After(c, n, es, i).required
    ensures t in After(c, n, es, i + 1).required <==>
      && (es[i].ForceAll? || (es[i].DecodeError? && es[i].tile == t))
      && !(LastIdr(es, i, t) > 0 && es[i].now - LastIdr(es, i, t) < c.grace)
  {
    var g := After(c, n, es, i);
    IdrTime(c, n, es, i, t);
    AfterNext(c, n, es, i);
    match es[i] {
      case ForceAll(now) => ForceEnters(c, g, now, |g.tiles|, t);
      case ResetAll => ResetShrinks(g, |g.tiles|);
      case _ =>
    }
  }

  // ---- request pacing ----

  function Min(a: int, b: int): int { if a < b then a else b }

  function Max(a: int, b: int): int { if a < b then b else a }

  /** The least time from the first to the `k`-th request of one sequence of attempts. */
  function Pace(c: Tuning, k: nat): int {
    c.rearm * Min(k - 1, c.cap - 1) + c.slow * Max(0, k - c.cap)
  }

  lemma PaceStep(c: Tuning, k: nat)
    requires k >= 1 && c.cap >= 1
    ensures Pace(c, k + 1) == Pace(c, k) + Interval(c, k)
  {
    if k < c.cap {
      assert c.rearm * k == c.rearm * (k - 1) + c.rearm;
    } else {
      assert c.slow * (k + 1 - c.cap) == c.slow * (k - c.cap) + c.slow;
    }
  }

  lemma {:induction false} ForceKeepsLast(c: Tuning, g: Gate, now: int, k: nat)
    requires |g.tiles| > 0
    ensures ForceFirst(c, g, now, k).firLast == g.firLast
    ensures ForceFirst(c, g, now, k).attempts[0] == g.attempts[0] || ForceFirst(c, g, now, k).attempts[0] == 0
  {
    hide MarkDecodeError;
    if k > 0 {
      ForceKeepsLast(c, g, now, k - 1);
      ErrorKeepsLast(c, ForceFirst(c, g, now, k - 1), k - 1, now, true);
    }
  }

  lemma ErrorKeepsLast(c: Tuning, g: Gate, tile: int, now: int, reliable: bool)
    requires |g.tiles| > 0
    ensures var r := MarkDecodeError(c, g, tile, now, reliable);
      |r.tiles| == |g.tiles| && r.firLast == g.firLast && (r.attempts[0] == g.attempts[0] || r.attempts[0] == 0)
  {
  }

  lemma {:induction false} ResetKeepsLast(g: Gate, k: nat)
    requires |g.tiles| > 0
    ensures ResetFirst(g, k).firLast == g.firLast
    ensures ResetFirst(g, k).attempts[0] == g.attempts[0] || ResetFirst(g, k).attempts[0] == 0
  {
    if k > 0 {
      ResetKeepsLast(g, k - 1);
    }
  }

  predicate GrantsNow(c: Tuning, g: Gate, e: Event) {
    e.Consume? && Grants(c, g, e.now)
  }

  lemma StepAttempts(c: Tuning, g: Gate, e: Event)
    requires |g.tiles| > 0
    ensures var r := Apply(c, g, e);
      if GrantsNow(c, g, e) then r.attempts[0] == g.attempts[0] + 1 && r.firLast[0] == e.now
      else r.firLast[0] == g.firLast[0] && (r.attempts[0] == g.attempts[0] || r.attempts[0] == 0)
  {
    match e
    case ForceAll(now) => ForceKeepsLast(c, g, now, |g.tiles|);
    case ResetAll => ResetKeepsLast(g, |g.tiles|);
    case _ =>
  }

  function AttemptsAfter(c: Tuning, n: nat, es: seq<Event>, i: nat): nat
    requires i <= |es| && n > 0
  {
    After(c, n, es, i).attempts[0]
  }

  /** From the first request at event `i` to just before event `j` the counter was not reset. */
  ghost predicate Unreset(c: Tuning, n: nat, es: seq<Event>, i: nat, j: nat)
    requires j <= |es| && n > 0
  {
    forall q :: i <= q < j ==> AttemptsAfter(c, n, es, q + 1) >= AttemptsAfter(c, n, es, q)
  }

  lemma {:induction false} PaceKept(c: Tuning, n: nat, es: seq<Event>, i: nat, j: nat)
    requires c.cap >= 1 && n > 0 && i < j <= |es| && Unreset(c, n, es, i, j)
    requires GrantsNow(c, After(c, n, es, i), es[i]) && AttemptsAfter(c, n, es, i) == 0
    ensures AttemptsAfter(c, n, es, j) >= 1
    ensures After(c, n, es, j).firLast[0] - es[i].now >= Pace(c, AttemptsAfter(c, n, es, j))
    decreases j
  {
    hide After, Apply, Grants, Pace, Interval;
    var g := After(c, n, es, j - 1);
    AfterNext(c, n, es, j - 1);
    StepAttempts(c, g, es[j - 1]);
    if j - 1 == i {
      PaceStarts(c);
    } else {
      PaceKept(c, n, es, i, j - 1);
      assert AttemptsAfter(c, n, es, j) >= AttemptsAfter(c, n, es, j - 1);
      if GrantsNow(c, g, es[j - 1]) {
        PaceStep(c, g.attempts[0]);
        GrantWaits(c, g, es[j - 1].now);
      }
    }
  }

  lemma PaceStarts(c: Tuning)
    requires c.cap >= 1
    ensures Pace(c, 1) == 0
  {
  }

  lemma GrantWaits(c: Tuning, g: Gate, now: int)
    requires Grants(c, g, now)
    ensures |g.tiles| > 0 && now - g.firLast[0] >= Interval(c, g.attempts[0])
  {
  }

  /** The k-th request of a sequence of attempts comes at least `Pace(k)` after the first. */
  lemma RequestsPaced(c: Tuning, n: nat, es: seq<Event>, i: nat, j: nat)
    requires c.cap >= 1 && n > 0 && i < j < |es| && Unreset(c, n, es, i, j)
    requires GrantsNow(c, After(c, n, es, i), es[i]) && AttemptsAfter(c, n, es, i) == 0
    requires GrantsNow(c, After(c, n, es, j), es[j])
    ensures es[j].now - es[i].now >= Pace(c, AttemptsAfter(c, n, es, j) + 1)
  {
    hide After, Apply, Pace;
    PaceKept(c, n, es, i, j);
    PaceStep(c, AttemptsAfter(c, n, es, j));
  }

  /** With the source's constants: one second per attempt up to the eighth, then four. */
  lemma RequestsPacedByDefault(n: nat, es: seq<Event>, i: nat, j: nat)
    requires n > 0 && i < j < |es| && Unreset(DEFAULTS, n, es, i, j)
    requires GrantsNow(DEFAULTS, After(DEFAULTS, n, es, i), es[i]) && AttemptsAfter(DEFAULTS, n, es, i) == 0
    requires GrantsNow(DEFAULTS, After(DEFAULTS, n, es, j), es[j])
    ensures var k := AttemptsAfter(DEFAULTS, n, es, j) + 1;
      es[j].now - es[i].now >= 1_000_000_000 * Min(k - 1, 7) + 4_000_000_000 * Max(0, k - 8)
  {
    hide After, GrantsNow, AttemptsAfter, Unreset;
    RequestsPaced(DEFAULTS, n, es, i, j);
  }
}
