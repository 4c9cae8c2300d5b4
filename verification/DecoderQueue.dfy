/**
 Recycling of the decoder's NAL buffers (src/media/decoder.cpp:46-55, 315-351): the packet thread pops a
 buffer from the free ring and pushes it to the work ring, the worker pops it there and pushes it back.
 Both rings are stepped at the granularity of their atomic operations.
 */
module DecoderQueue {
  import opened Wire
  import opened SpscRing

  const QUEUE_CAP := 64

  /** `feeder` and `worker` are the buffers in the hands of the two threads. */
  datatype Sys = Sys(free: Ring<nat>, work: Ring<nat>, feeder: Option<nat>, worker: Option<nat>)

  /** Which ring operation a thread performs next. */
  datatype Move =
    | FeederPops(t: Step<nat>)
    | FeederPushes(t: Step<nat>)
    | WorkerPops(t: Step<nat>)
    | WorkerPushes(t: Step<nat>)

  predicate PopStep(t: Step<nat>) {
    t.BeginPop? || t.LoadWrite? || t.Empty? || t.Take? || t.Advance?
  }

  predicate PushStep(t: Step<nat>) {
    !PopStep(t)
  }

  /** Each thread pops while its hands are empty, and pushes what it holds. */
  predicate CanMove(s: Sys, m: Move) {
    match m
    case FeederPops(t) => PopStep(t) && s.feeder.None? && Enabled(s.free, t)
    case FeederPushes(t) =>
      PushStep(t) && s.feeder.Some? && Enabled(s.work, t) && (t.BeginPush? ==> t.v == s.feeder.value)
    case WorkerPops(t) => PopStep(t) && s.worker.None? && Enabled(s.work, t)
    case WorkerPushes(t) =>
      PushStep(t) && s.worker.Some? && Enabled(s.free, t) && (t.BeginPush? ==> t.v == s.worker.value)
  }

  function Moved(s: Sys, m: Move): Sys
    requires CanMove(s, m)
  {
    match m
    case FeederPops(t) => s.(free := Next(s.free, t), feeder := if t.Advance? then Some(s.free.consumer.v) else None)
    case FeederPushes(t) => s.(work := Next(s.work, t), feeder := if t.Publish? then None else s.feeder)
    case WorkerPops(t) => s.(work := Next(s.work, t), worker := if t.Advance? then Some(s.work.consumer.v) else None)
    case WorkerPushes(t) => s.(free := Next(s.free, t), worker := if t.Publish? then None else s.worker)
  }

  function InHand(h: Option<nat>): seq<nat> {
    if h.Some? then [h.value] else []
  }

  function Pushing(p: Producer<nat>): Option<nat> {
    match p
    case PIdle => None
    case PWrite(v, _) => Some(v)
    case PRead(v, _, _) => Some(v)
    case PStored(v, _) => Some(v)
  }

  /** Every buffer, wherever it is. */
  ghost function Everything(s: Sys): seq<nat> {
    Contents(s.free) + Contents(s.work) + InHand(s.feeder) + InHand(s.worker)
  }

  /** The room a producer that has loaded `read_` believes it has. */
  ghost predicate SeesRoom(r: Ring<nat>) {
    r.producer.PRead? ==> Diff(r.producer.w, r.producer.r) < QUEUE_CAP
  }

  ghost predicate Each(buffers: seq<nat>) {
    forall b: nat :: multiset(buffers)[b] == if b < QUEUE_CAP then 1 else 0
  }

  /** Each of the 64 buffers is in exactly one of: free ring, work ring, feeder's hands, worker's hands. */
  ghost predicate SysInv(s: Sys) {
    && Inv(s.free) && |s.free.buf| == 2 * QUEUE_CAP
    && Inv(s.work) && |s.work.buf| == QUEUE_CAP
    && Each(Everything(s)) && |Everything(s)| == QUEUE_CAP
    && (s.feeder.Some? ==> s.free.consumer.CIdle?) && (s.worker.Some? ==> s.work.consumer.CIdle?)
    && (Pushing(s.work.producer).Some? ==> s.feeder == Pushing(s.work.producer))
    && (Pushing(s.free.producer).Some? ==> s.worker == Pushing(s.free.producer))
    && SeesRoom(s.work) && SeesRoom(s.free)
  }

  lemma FeederPopKeeps(s: Sys, t: Step<nat>)
    requires SysInv(s) && CanMove(s, FeederPops(t))
    ensures SysInv(Moved(s, FeederPops(t)))
  {
    hide Inv, Contents, Each, Everything;
    StepContents(s.free, t);
    var r := Moved(s, FeederPops(t));
    if t.Advance? {
      assert multiset(Contents(s.free)) == multiset(InHand(r.feeder)) + multiset(Contents(r.free));
    }
    SameBuffers(s, r);
  }

  lemma FeederPushKeeps(s: Sys, t: Step<nat>)
    requires SysInv(s) && CanMove(s, FeederPushes(t))
    ensures SysInv(Moved(s, FeederPushes(t)))
  {
    hide Inv, Contents, Each, Everything;
    StepContents(s.work, t);
    var r := Moved(s, FeederPushes(t));
    if t.Publish? {
      assert multiset(Contents(r.work)) == multiset(Contents(s.work)) + multiset(InHand(s.feeder));
    } else if t.LoadRead? {
      LoadReadKeeps(s.work);
      EverythingSize(s);
    }
    SameBuffers(s, r);
  }

  lemma WorkerPopKeeps(s: Sys, t: Step<nat>)
    requires SysInv(s) && CanMove(s, WorkerPops(t))
    ensures SysInv(Moved(s, WorkerPops(t)))
  {
    hide Inv, Contents, Each, Everything;
    StepContents(s.work, t);
    var r := Moved(s, WorkerPops(t));
    if t.Advance? {
      assert multiset(Contents(s.work)) == multiset(InHand(r.worker)) + multiset(Contents(r.work));
    }
    SameBuffers(s, r);
  }

  lemma WorkerPushKeeps(s: Sys, t: Step<nat>)
    requires SysInv(s) && CanMove(s, WorkerPushes(t))
    ensures SysInv(Moved(s, WorkerPushes(t)))
  {
    hide Inv, Contents, Each, Everything;
    StepContents(s.free, t);
    var r := Moved(s, WorkerPushes(t));
    if t.Publish? {
      assert multiset(Contents(r.free)) == multiset(Contents(s.free)) + multiset(InHand(s.worker));
    } else if t.LoadRead? {
      LoadReadKeeps(s.free);
      EverythingSize(s);
    }
    SameBuffers(s, r);
  }

  lemma EverythingSize(s: Sys)
    ensures |Everything(s)| == |Contents(s.free)| + |Contents(s.work)| + |InHand(s.feeder)| + |InHand(s.worker)|
  {
  }

  /** Moving one buffer between two places keeps the collection. */
  lemma SameBuffers(s: Sys, r: Sys)
    requires multiset(Contents(s.free)) + multiset(Contents(s.work))
             + multiset(InHand(s.feeder)) + multiset(InHand(s.worker))
          == multiset(Contents(r.free)) + multiset(Contents(r.work))
             + multiset(InHand(r.feeder)) + multiset(InHand(r.worker))
    ensures |Everything(s)| == |Everything(r)| && (Each(Everything(s)) ==> Each(Everything(r)))
  {
    hide Contents, InHand;
    assert |multiset(Everything(s))| == |Everything(s)| && |multiset(Everything(r))| == |Everything(r)|;
  }

  lemma MoveKeeps(s: Sys, m: Move)
    requires SysInv(s) && CanMove(s, m)
    ensures SysInv(Moved(s, m))
  {
    hide SysInv;
    match m
    case FeederPops(t) => FeederPopKeeps(s, t);
    case FeederPushes(t) => FeederPushKeeps(s, t);
    case WorkerPops(t) => WorkerPopKeeps(s, t);
    case WorkerPushes(t) => WorkerPushKeeps(s, t);
  }

  // ---- construction ----

  /** One whole `push` with nobody interfering. */
  ghost function PushAlone(r: Ring<nat>, v: nat): Ring<nat>
    requires r.producer.PIdle? && Diff(r.write, r.read) < |r.buf|
  {
    Next(Next(Next(Next(r, BeginPush(v)), LoadRead), Store), Publish)
  }

  lemma PushAloneAppends(r: Ring<nat>, v: nat)
    requires Inv(r) && r.producer.PIdle? && |Contents(r)| < |r.buf|
    ensures Diff(r.write, r.read) < |r.buf|
    ensures var r' := PushAlone(r, v);
            && Inv(r') && r'.producer.PIdle? && r'.consumer == r.consumer && |r'.buf| == |r.buf|
            && Contents(r') == Contents(r) + [v]
  {
    var a := Next(r, BeginPush(v));
    StepContents(r, BeginPush(v));
    LoadReadKeeps(a);
    var b := Next(a, LoadRead);
    StepContents(a, LoadRead);
    var c := Next(b, Store);
    StepContents(b, Store);
    StepContents(c, Publish);
  }

  /** The constructor's loop: buffers 0 to `n - 1` pushed to the free ring. */
  ghost function Filled(buf: seq<nat>, n: nat): (r: Ring<nat>)
    requires |buf| == 2 * QUEUE_CAP && n <= QUEUE_CAP
    ensures Inv(r) && |r.buf| == |buf| && r.producer.PIdle? && r.consumer.CIdle?
    ensures |Contents(r)| == n && forall i :: 0 <= i < n ==> Contents(r)[i] == i
  {
    if n == 0 then
      FreshInv(buf);
      Fresh(buf)
    else
      var q := Filled(buf, n - 1);
      PushAloneAppends(q, n - 1);
      PushAlone(q, n - 1)
  }

  ghost function Start(freeCells: seq<nat>, workCells: seq<nat>): Sys
    requires |freeCells| == 2 * QUEUE_CAP && |workCells| == QUEUE_CAP
  {
    Sys(Filled(freeCells, QUEUE_CAP), Fresh(workCells), None, None)
  }

  lemma CountUp(s: seq<nat>, n: nat, b: nat)
    requires |s| == n && forall i :: 0 <= i < n ==> s[i] == i
    ensures multiset(s)[b] == if b < n then 1 else 0
  {
    if n > 0 {
      assert s == s[..n - 1] + [s[n - 1]];
      CountUp(s[..n - 1], n - 1, b);
    }
  }

  lemma StartInv(freeCells: seq<nat>, workCells: seq<nat>)
    requires |freeCells| == 2 * QUEUE_CAP && |workCells| == QUEUE_CAP
    ensures SysInv(Start(freeCells, workCells))
  {
    hide Inv;
    var s := Start(freeCells, workCells);
    FreshInv(workCells);
    assert Everything(s) == Contents(s.free);
    forall b: nat ensures multiset(Everything(s))[b] == if b < QUEUE_CAP then 1 else 0 {
      CountUp(Contents(s.free), QUEUE_CAP, b);
    }
  }

  ghost predicate Execution(ss: seq<Sys>, ms: seq<Move>) {
    && |ss| == |ms| + 1
    && |ss[0].free.buf| == 2 * QUEUE_CAP && |ss[0].work.buf| == QUEUE_CAP
    && (exists f: seq<nat>, w: seq<nat> :: |f| == 2 * QUEUE_CAP && |w| == QUEUE_CAP && ss[0] == Start(f, w))
    && forall i {:trigger ms[i]} :: 0 <= i < |ms| ==> CanMove(ss[i], ms[i]) && ss[i + 1] == Moved(ss[i], ms[i])
  }

  /**
   In every interleaving of the two threads each of the 64 buffers is in exactly one place, and no push of
   either thread is ever refused: the branch of `feed_nalu` that hands a buffer back is dead.
   */
  lemma NoBufferLost(ss: seq<Sys>, ms: seq<Move>, i: nat)
    requires Execution(ss, ms) && i < |ss|
    ensures SysInv(ss[i])
    ensures !Enabled(ss[i].work, Refuse) && !Enabled(ss[i].free, Refuse)
  {
    hide Inv, Each, Everything, CanMove, Moved;
    if i == 0 {
      var f: seq<nat>, w: seq<nat> :| |f| == 2 * QUEUE_CAP && |w| == QUEUE_CAP && ss[0] == Start(f, w);
      StartInv(f, w);
    } else {
      NoBufferLost(ss, ms, i - 1);
      MoveKeeps(ss[i - 1], ms[i - 1]);
      assert ss[i] == Moved(ss[i - 1], ms[i - 1]);
    }
  }
}
