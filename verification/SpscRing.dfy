/**
 The single-producer single-consumer ring (src/common/ring.h:18-33) as two threads of atomic steps.
 Each load, each store and each access to a cell is one step, so `read_` and `write_` may move between a
 thread's loads and its later steps. Indices are 64-bit and wrap; the history of completed pushes and
 pops is kept beside them.
 */
module SpscRing {
  import opened Bytes

  const INDEX_SPACE: int := 0x1_0000_0000_0000_0000

  type Index = x: int | 0 <= x < INDEX_SPACE

  /** Where the producer is inside `push(v)`. */
  datatype Producer<T> = PIdle | PWrite(v: T, w: Index) | PRead(v: T, w: Index, r: Index) | PStored(v: T, w: Index)

  /** Where the consumer is inside `pop()`. */
  datatype Consumer<T> = CIdle | CRead(r: Index) | CWrite(r: Index, w: Index) | CTaken(r: Index, v: T)

  datatype Ring<T> = Ring(buf: seq<T>, write: Index, read: Index,
                          producer: Producer<T>, consumer: Consumer<T>, pushed: seq<T>, popped: seq<T>)

  datatype Step<T> =
    | BeginPush(v: T)  // load write_
    | LoadRead         // producer loads read_
    | Refuse           // full: push returns false
    | Store            // write the cell
    | Publish          // store write_, push returns true
    | BeginPop         // load read_
    | LoadWrite        // consumer loads write_
    | Empty            // pop returns nothing
    | Take             // read the cell
    | Advance          // store read_, pop returns the value

  /** `size_t(a - b)`. */
  function Diff(a: Index, b: Index): Index {
    (a - b) % INDEX_SPACE
  }

  function Bump(a: Index): Index {
    (a + 1) % INDEX_SPACE
  }

  /** `i & mask_`, for a capacity that is a power of two. */
  function Cell(i: Index, cap: nat): (c: nat)
    requires cap > 0
    ensures c < cap
  {
    i % cap
  }

  predicate Enabled<T>(s: Ring<T>, t: Step<T>) {
    match t
    case BeginPush(_) => s.producer.PIdle?
    case LoadRead => s.producer.PWrite?
    case Refuse => s.producer.PRead? && Diff(s.producer.w, s.producer.r) >= |s.buf|
    case Store => s.producer.PRead? && Diff(s.producer.w, s.producer.r) < |s.buf|
    case Publish => s.producer.PStored?
    case BeginPop => s.consumer.CIdle?
    case LoadWrite => s.consumer.CRead?
    case Empty => s.consumer.CWrite? && s.consumer.r == s.consumer.w
    case Take => s.consumer.CWrite? && s.consumer.r != s.consumer.w && |s.buf| > 0
    case Advance => s.consumer.CTaken?
  }

  function Next<T>(s: Ring<T>, t: Step<T>): Ring<T>
    requires Enabled(s, t)
  {
    match t
    case BeginPush(v) => s.(producer := PWrite(v, s.write))
    case LoadRead => s.(producer := PRead(s.producer.v, s.producer.w, s.read))
    case Refuse => s.(producer := PIdle)
    case Store =>
      s.(buf := s.buf[Cell(s.producer.w, |s.buf|) := s.producer.v], producer := PStored(s.producer.v, s.producer.w))
    case Publish => s.(write := Bump(s.producer.w), producer := PIdle, pushed := s.pushed + [s.producer.v])
    case BeginPop => s.(consumer := CRead(s.read))
    case LoadWrite => s.(consumer := CWrite(s.consumer.r, s.write))
    case Empty => s.(consumer := CIdle)
    case Take => s.(consumer := CTaken(s.consumer.r, s.buf[Cell(s.consumer.r, |s.buf|)]))
    case Advance => s.(read := Bump(s.consumer.r), consumer := CIdle, popped := s.popped + [s.consumer.v])
  }

  // ---- arithmetic of wrapping indices ----

  /** A capacity that divides the index space makes the cell a function of the unwrapped count. */
  lemma CellOfCount(n: nat, cap: int)
    requires 0 < cap && INDEX_SPACE % cap == 0
    ensures (n % INDEX_SPACE) % cap == n % cap
  {
    var q, d := INDEX_SPACE / cap, n / INDEX_SPACE;
    var m := n % INDEX_SPACE;
    assert n == INDEX_SPACE * d + m;
    assert INDEX_SPACE == cap * q;
    var e := m / cap;
    assert m == cap * e + m % cap;
    assert cap * (q * d + e) == (cap * q) * d + cap * e;
    DivModUnique(n, cap, q * d + e, m % cap);
  }

  /** Counts less than a capacity apart use different cells. */
  lemma CellsDiffer(i: nat, j: nat, cap: int)
    requires 0 < cap && i < j < i + cap
    ensures i % cap != j % cap
  {
    var a, b := i / cap, j / cap;
    assert i == cap * a + i % cap && j == cap * b + j % cap;
    if i % cap == j % cap {
      assert cap * (b - a) == cap * b - cap * a;
      if b <= a {
        MulMono(cap, b, a);
      } else {
        MulMono(cap, 1, b - a);
      }
    }
  }

  lemma DiffOfCounts(a: nat, b: nat)
    requires b <= a < b + INDEX_SPACE
    ensures Diff(a % INDEX_SPACE, b % INDEX_SPACE) == a - b
  {
    var x, y := a % INDEX_SPACE, b % INDEX_SPACE;
    assert x == y + (a - b) || x == y + (a - b) - INDEX_SPACE;
  }

  lemma BumpCount(n: nat)
    ensures Bump(n % INDEX_SPACE) == (n + 1) % INDEX_SPACE
  {
  }

  // ---- the invariant ----

  /** A usable capacity: the source asks for a power of two. */
  ghost predicate Capacity(cap: int) {
    0 < cap < INDEX_SPACE && INDEX_SPACE % cap == 0
  }

  /** Values pushed and not popped yet, oldest first. */
  ghost function Contents<T>(s: Ring<T>): seq<T> {
    if |s.popped| <= |s.pushed| then s.pushed[|s.popped|..] else []
  }

  ghost predicate ProducerOk<T>(s: Ring<T>) {
    match s.producer
    case PIdle => true
    case PWrite(_, w) => w == s.write
    case PRead(_, w, r) => w == s.write && Diff(w, r) <= |s.buf| && |s.pushed| - Diff(w, r) <= |s.popped|
    case PStored(v, w) =>
      w == s.write && |s.buf| > 0 && |s.pushed| < |s.popped| + |s.buf| && s.buf[|s.pushed| % |s.buf|] == v
  }

  ghost predicate ConsumerOk<T>(s: Ring<T>) {
    match s.consumer
    case CIdle => true
    case CRead(r) => r == s.read
    case CWrite(r, w) => r == s.read && Diff(w, r) <= |s.buf| && |s.popped| + Diff(w, r) <= |s.pushed|
    case CTaken(r, v) => r == s.read && |s.popped| < |s.pushed| && v == s.pushed[|s.popped|]
  }

  ghost predicate CellsHold<T>(s: Ring<T>)
    requires |s.buf| > 0
  {
    forall i :: |s.popped| <= i < |s.pushed| ==> s.buf[i % |s.buf|] == s.pushed[i]
  }

  /** Pops are a prefix of pushes, at most a capacity behind, and every unread value is still in its cell. */
  ghost predicate Inv<T>(s: Ring<T>) {
    && Capacity(|s.buf|)
    && s.write == |s.pushed| % INDEX_SPACE && s.read == |s.popped| % INDEX_SPACE
    && |s.popped| <= |s.pushed| <= |s.popped| + |s.buf|
    && s.popped <= s.pushed
    && CellsHold(s)
    && ProducerOk(s) && ConsumerOk(s)
  }

  lemma StoreKeeps<T>(s: Ring<T>)
    requires Inv(s) && Enabled(s, Store)
    ensures Inv(Next(s, Store)) && |s.pushed| < |s.popped| + |s.buf|
    ensures forall i :: |s.popped| <= i < |s.pushed| ==> i % |s.buf| != Cell(s.producer.w, |s.buf|)
  {
    var cap, n := |s.buf|, |s.pushed|;
    CellOfCount(n, cap);
    forall i | |s.popped| <= i < n ensures i % cap != n % cap {
      CellsDiffer(i, n, cap);
    }
  }

  lemma PublishKeeps<T>(s: Ring<T>)
    requires Inv(s) && Enabled(s, Publish)
    ensures Inv(Next(s, Publish)) && Contents(Next(s, Publish)) == Contents(s) + [s.producer.v]
  {
    BumpCount(|s.pushed|);
  }

  lemma TakeKeeps<T>(s: Ring<T>)
    requires Inv(s) && Enabled(s, Take)
    ensures Inv(Next(s, Take)) && |s.popped| < |s.pushed|
  {
    CellOfCount(|s.popped|, |s.buf|);
    assert s.buf[|s.popped| % |s.buf|] == s.pushed[|s.popped|];
  }

  lemma AdvanceKeeps<T>(s: Ring<T>)
    requires Inv(s) && Enabled(s, Advance)
    ensures Inv(Next(s, Advance)) && Contents(s) == [s.consumer.v] + Contents(Next(s, Advance))
  {
    BumpCount(|s.popped|);
    var r := Next(s, Advance);
    assert r.popped <= r.pushed;
  }

  lemma LoadReadKeeps<T>(s: Ring<T>)
    requires Inv(s) && Enabled(s, LoadRead)
    ensures Inv(Next(s, LoadRead))
    ensures Diff(s.producer.w, s.read) == |Contents(s)|
  {
    DiffOfCounts(|s.pushed|, |s.popped|);
  }

  lemma LoadWriteKeeps<T>(s: Ring<T>)
    requires Inv(s) && Enabled(s, LoadWrite)
    ensures Inv(Next(s, LoadWrite))
    ensures Diff(s.write, s.consumer.r) == |Contents(s)|
  {
    DiffOfCounts(|s.pushed|, |s.popped|);
  }

  lemma StepKeeps<T>(s: Ring<T>, t: Step<T>)
    requires Inv(s) && Enabled(s, t)
    ensures Inv(Next(s, t))
  {
    match t
    case LoadRead => LoadReadKeeps(s);
    case Store => StoreKeeps(s);
    case Publish => PublishKeeps(s);
    case LoadWrite => LoadWriteKeeps(s);
    case Take => TakeKeeps(s);
    case Advance => AdvanceKeeps(s);
    case _ =>
  }

  /** Publishing appends to the contents, advancing removes the oldest, nothing else changes them. */
  lemma StepContents<T>(s: Ring<T>, t: Step<T>)
    requires Inv(s) && Enabled(s, t)
    ensures Inv(Next(s, t)) && |Next(s, t).buf| == |s.buf|
    ensures t.Publish? ==> Contents(Next(s, t)) == Contents(s) + [s.producer.v]
    ensures t.Advance? ==> Contents(s) == [s.consumer.v] + Contents(Next(s, t))
    ensures !t.Publish? && !t.Advance? ==> Contents(Next(s, t)) == Contents(s)
  {
    hide Inv;
    StepKeeps(s, t);
    if t.Publish? {
      PublishKeeps(s);
    } else if t.Advance? {
      AdvanceKeeps(s);
    }
  }

  // ---- every interleaving ----

  ghost function Fresh<T>(buf: seq<T>): Ring<T> {
    Ring(buf, 0, 0, PIdle, CIdle, [], [])
  }

  /** `ss` is an execution of the steps `ts`, by either thread in any order, from a new ring. */
  ghost predicate Execution<T>(ss: seq<Ring<T>>, ts: seq<Step<T>>) {
    && |ss| == |ts| + 1
    && Capacity(|ss[0].buf|) && ss[0] == Fresh(ss[0].buf)
    && forall i {:trigger ts[i]} :: 0 <= i < |ts| ==> Enabled(ss[i], ts[i]) && ss[i + 1] == Next(ss[i], ts[i])
  }

  lemma Reachable<T>(ss: seq<Ring<T>>, ts: seq<Step<T>>, i: nat)
    requires Execution(ss, ts) && i < |ss|
    ensures Inv(ss[i]) && |ss[i].buf| == |ss[0].buf|
  {
    hide Inv, Enabled;
    if i == 0 {
      FreshInv(ss[0].buf);
    } else {
      Reachable(ss, ts, i - 1);
      StepKeeps(ss[i - 1], ts[i - 1]);
      assert ss[i] == Next(ss[i - 1], ts[i - 1]);
    }
  }

  lemma FreshInv<T>(buf: seq<T>)
    requires Capacity(|buf|)
    ensures Inv(Fresh(buf))
  {
  }

  /**
   In every interleaving: what has been popped is a prefix of what has been pushed, the ring never holds
   more than its capacity, a store never hits the cell of an unread value, and the two threads never
   access the same cell at the same time.
   */
  lemma RingIsQueue<T>(ss: seq<Ring<T>>, ts: seq<Step<T>>, i: nat)
    requires Execution(ss, ts) && i < |ss|
    ensures ss[i].popped <= ss[i].pushed && |Contents(ss[i])| <= |ss[0].buf| == |ss[i].buf|
    ensures Enabled(ss[i], Store) ==>
              var c := Cell(ss[i].producer.w, |ss[i].buf|);
              forall j :: |ss[i].popped| <= j < |ss[i].pushed| ==> j % |ss[i].buf| != c
    ensures Enabled(ss[i], Store) && Enabled(ss[i], Take) ==>
              Cell(ss[i].producer.w, |ss[i].buf|) != Cell(ss[i].consumer.r, |ss[i].buf|)
  {
    var s := ss[i];
    Reachable(ss, ts, i);
    if Enabled(s, Store) {
      StoreKeeps(s);
      if Enabled(s, Take) {
        TakeKeeps(s);
        CellOfCount(|s.popped|, |s.buf|);
        assert |s.popped| % |s.buf| != Cell(s.producer.w, |s.buf|);
      }
    }
  }

  /** `push` refuses only if the ring was full when it loaded `read_`; `pop` finds nothing only if it was empty. */
  lemma RefusalsAreReal<T>(s: Ring<T>)
    requires Inv(s)
    ensures Enabled(s, LoadRead) ==> (Enabled(Next(s, LoadRead), Refuse) <==> |Contents(s)| == |s.buf|)
    ensures Enabled(s, LoadWrite) ==> (Enabled(Next(s, LoadWrite), Empty) <==> Contents(s) == [])
  {
    if Enabled(s, LoadRead) {
      LoadReadKeeps(s);
    }
    if Enabled(s, LoadWrite) {
      LoadWriteKeeps(s);
    }
  }
}
