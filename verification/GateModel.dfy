/** The keyframe gate as a function of its state: src/media/quality_gate.cpp:9-73. Times are nanoseconds. */
module GateModel {

  datatype Tuning = Tuning(rearm: int, cap: nat, slow: int, grace: int, quiet: int)

  const DEFAULTS := Tuning(1_000_000_000, 8, 4_000_000_000, 500_000_000, 1_500_000_000)

  datatype TileState = TileState(badStreak: nat, needsRealFrame: bool)

  datatype GateState = GateState(
    tiles: seq<TileState>, required: set<int>, observed: set<int>,
    firLast: seq<int>, attempts: seq<nat>, capWarned: seq<bool>, cycles: seq<nat>, idrAt: seq<int>,
    lastConcealment: int, lastUnreliable: int, flickers: nat)

  predicate Shaped(g: GateState) {
    && |g.firLast| == |g.attempts| == |g.capWarned| == |g.cycles| == |g.idrAt| == |g.tiles|
    && forall t :: t in g.required ==> 0 <= t < |g.tiles|
  }

  type Gate = g: GateState | Shaped(g) witness GateState([], {}, {}, [], [], [], [], [], 0, 0, 0)

  predicate HasTile(g: Gate, tile: int) {
    0 <= tile < |g.tiles|
  }

  function Fresh(n: nat): Gate {
    GateState(seq(n, _ => TileState(0, false)), {}, {}, seq(n, _ => 0), seq(n, _ => 0),
              seq(n, _ => false), seq(n, _ => 0), seq(n, _ => 0), 0, 0, 0)
  }

  /** An error right after an IDR is the IDR's own and does not count. */
  predicate InGrace(c: Tuning, g: Gate, tile: int, now: int)
    requires HasTile(g, tile)
  {
    g.idrAt[tile] > 0 && now - g.idrAt[tile] < c.grace
  }

  /** A tile that was not required becomes so: a new cycle with its attempts counted afresh. */
  function Demand(g: Gate, tile: int): Gate {
    if !HasTile(g, tile) then g
    else
      g.(required := g.required + {tile}, observed := g.observed - {tile},
         attempts := g.attempts[tile := 0], capWarned := g.capWarned[tile := false],
         flickers := g.flickers + 1, cycles := g.cycles[tile := g.cycles[tile] + 1])
  }

  function MarkDecodeError(c: Tuning, g: Gate, tile: int, now: int, reliable: bool): Gate {
    if !HasTile(g, tile) then g
    else
      var g1 := g.(lastConcealment := now, lastUnreliable := if reliable then g.lastUnreliable else now);
      if InGrace(c, g, tile, now) then g1
      else
        var g2 := g1.(tiles := g1.tiles[tile := TileState(g1.tiles[tile].badStreak + 1, true)]);
        if tile in g.required then g2 else Demand(g2, tile)
  }

  function MarkIdrObserved(g: Gate, tile: int, now: int, suspicious: bool): Gate {
    if !HasTile(g, tile) then g
    else
      g.(idrAt := g.idrAt[tile := now],
         observed := if !suspicious && tile in g.required then g.observed + {tile} else g.observed)
  }

  predicate Recovers(c: Tuning, g: Gate, tile: int, now: int) {
    tile in g.required && tile in g.observed && now - g.lastUnreliable >= c.quiet
  }

  function MarkClean(c: Tuning, g: Gate, tile: int, now: int): Gate {
    if !HasTile(g, tile) then g
    else
      var g1 := g.(tiles := g.tiles[tile := TileState(0, false)]);
      if !Recovers(c, g, tile, now) then g1
      else
        g1.(required := g1.required - {tile}, observed := g1.observed - {tile},
            attempts := g1.attempts[tile := 0], capWarned := g1.capWarned[tile := false],
            cycles := g1.cycles[tile := if g1.cycles[tile] >= 3 then 0 else g1.cycles[tile]])
  }

  function Interval(c: Tuning, attempts: nat): int {
    if attempts >= c.cap then c.slow else c.rearm
  }

  /** Whether a keyframe request goes out; tile 0 keeps the books for all tiles. */
  predicate Grants(c: Tuning, g: Gate, now: int) {
    g.required != {} && |g.tiles| > 0 && now - g.firLast[0] >= Interval(c, g.attempts[0])
  }

  function ConsumeFir(c: Tuning, g: Gate, now: int): Gate {
    if !Grants(c, g, now) then g
    else
      g.(firLast := g.firLast[0 := now], attempts := g.attempts[0 := g.attempts[0] + 1],
         capWarned := g.capWarned[0 := g.capWarned[0] || g.attempts[0] >= c.cap])
  }

  /** `force_keyframe_all` after `k` tiles. */
  function ForceFirst(c: Tuning, g: Gate, now: int, k: nat): (r: Gate)
    ensures |r.tiles| == |g.tiles|
  {
    if k == 0 then g else MarkDecodeError(c, ForceFirst(c, g, now, k - 1), k - 1, now, true)
  }

  function ResetTile(g: Gate, tile: int): Gate {
    if !HasTile(g, tile) then g
    else
      g.(tiles := g.tiles[tile := TileState(0, false)],
         required := g.required - {tile}, observed := g.observed - {tile},
         attempts := g.attempts[tile := 0], capWarned := g.capWarned[tile := false],
         cycles := g.cycles[tile := 0], idrAt := g.idrAt[tile := 0])
  }

  function ResetFirst(g: Gate, k: nat): (r: Gate)
    ensures |r.tiles| == |g.tiles|
  {
    if k == 0 then g else ResetTile(ResetFirst(g, k - 1), k - 1)
  }

  // ---- runs ----

  datatype Event =
    | DecodeError(tile: int, now: int, reliable: bool)
    | IdrObserved(tile: int, now: int, suspicious: bool)
    | Clean(tile: int, now: int)
    | Consume(now: int)
    | ForceAll(now: int)
    | ResetAll
    | ResetOne(tile: int)

  function Apply(c: Tuning, g: Gate, e: Event): (r: Gate)
    ensures |r.tiles| == |g.tiles|
  {
    match e
    case DecodeError(tile, now, reliable) => MarkDecodeError(c, g, tile, now, reliable)
    case IdrObserved(tile, now, suspicious) => MarkIdrObserved(g, tile, now, suspicious)
    case Clean(tile, now) => MarkClean(c, g, tile, now)
    case Consume(now) => ConsumeFir(c, g, now)
    case ForceAll(now) => ForceFirst(c, g, now, |g.tiles|)
    case ResetAll => ResetFirst(g, |g.tiles|)
    case ResetOne(tile) => ResetTile(g, tile)
  }

  /** The state after the first `i` events of a gate with `n` tiles. */
  function After(c: Tuning, n: nat, es: seq<Event>, i: nat): (g: Gate)
    requires i <= |es|
    ensures |g.tiles| == n
  {
    if i == 0 then Fresh(n) else Apply(c, After(c, n, es, i - 1), es[i - 1])
  }
}
