/**
 The access-unit assembler as a function of its state: src/media/rtp_assembler.cpp.
 `AssemblerState` holds the containers of `RtpAssembler`, the free list of its packet pool, and
 the calls it has made to `on_flush` and `on_drop` in `log`.
 */
module AssemblerModel {
  import opened Wire
  import opened CircularSort

  datatype Config = Config(codec: Codec, repairWait: nat, groupTtl: nat, dedupTtl: nat)

  /** `key(ssrc, ts)`: the pair the source packs into 64 bits. */
  datatype Key = Key(ssrc: U32, ts: U32)

  /** `deadline == 0` means that no repair deadline is armed. */
  datatype Group = Group(pkts: seq<GroupPacket>, arrival: int, deadline: int, hasMarker: bool)

  datatype Reason = RepairTimeout | MarkerTimeout

  datatype Output =
    | Flushed(key: Key, packets: seq<GroupPacket>, incomplete: bool)
    | Dropped(key: Key, hadMarker: bool, reason: Reason, count: nat, age: int)
    | Restarted

  datatype AssemblerState = AssemblerState(
    groups: map<Key, Group>,
    groupOrder: seq<Key>,
    deadlineOrder: seq<Key>,
    recent: map<Key, int>,
    lastMarker: map<U32, U16>,
    free: seq<nat>,
    log: seq<Output>)

  function Slots(p: seq<GroupPacket>): seq<nat> {
    seq(|p|, i requires 0 <= i < |p| => p[i].slot)
  }

  /** Neighbours in the circular order differ by at most one. */
  predicate GapFree(p: seq<GroupPacket>) {
    forall i :: 0 <= i < |p| - 1 ==> Sub16(p[i + 1].num, p[i].num) <= 1
  }

  /** `group_complete` on the sorted packets of a group. */
  predicate Complete(s: AssemblerState, k: Key)
    requires k in s.groups
  {
    var p := SortedPackets(s.groups[k].pkts);
    && p != [] && s.groups[k].hasMarker && p[|p| - 1].marker
    && GapFree(p)
    && (k.ssrc in s.lastMarker ==> p[0].num == Add16(s.lastMarker[k.ssrc], 1))
  }

  /** The scan from the back for the last packet that carries the marker bit. */
  function LastMarkerOf(p: seq<GroupPacket>): Option<U16> {
    if p == [] then None
    else if p[|p| - 1].marker then Some(p[|p| - 1].num)
    else LastMarkerOf(p[..|p| - 1])
  }

  // ---- ordered_keys ----

  datatype Rank = Rank(dist: int, arrival: int, key: Key)

  predicate Before(a: Rank, b: Rank) {
    a.dist < b.dist || (a.dist == b.dist && a.arrival < b.arrival)
  }

  /** Distance of a group from the expected next sequence number. */
  function RankOf(s: AssemblerState, k: Key): Rank
    requires k in s.groups
  {
    var g := s.groups[k];
    var dist :=
      if k.ssrc !in s.lastMarker then 0
      else if g.pkts == [] then 1_000_000_000_000_000_000
      else
        assert |SortedPackets(g.pkts)| == |g.pkts| by { SameElements(SortedPackets(g.pkts), g.pkts); }
        Sub16(SortedPackets(g.pkts)[0].num, Add16(s.lastMarker[k.ssrc], 1)) as int;
    Rank(dist, g.arrival, k)
  }

  function Ranks(s: AssemblerState, ssrc: U32, order: seq<Key>): seq<Rank> {
    if order == [] then []
    else
      var k := order[|order| - 1];
      var init := Ranks(s, ssrc, order[..|order| - 1]);
      if k in s.groups && k.ssrc == ssrc then init + [RankOf(s, k)] else init
  }

  function StableInsert(s: seq<Rank>, e: Rank): seq<Rank> {
    if s == [] || !Before(e, s[|s| - 1]) then s + [e]
    else StableInsert(s[..|s| - 1], e) + [s[|s| - 1]]
  }

  /** `std::stable_sort` by distance, then arrival. */
  function StableSort(s: seq<Rank>): seq<Rank> {
    if s == [] then [] else StableInsert(StableSort(s[..|s| - 1]), s[|s| - 1])
  }

  function KeysOf(s: seq<Rank>): seq<Key> {
    seq(|s|, i requires 0 <= i < |s| => s[i].key)
  }

  function OrderedKeys(s: AssemblerState, ssrc: U32): seq<Key> {
    KeysOf(StableSort(Ranks(s, ssrc, s.groupOrder)))
  }

  // ---- elementary changes of state ----

  /** `pool_.release(slot)`. */
  function GiveBack(s: AssemblerState, slot: nat): AssemblerState {
    s.(free := s.free + [slot])
  }

  predicate Holds(s: AssemblerState, k: Key, num: U16) {
    k in s.groups && exists i :: 0 <= i < |s.groups[k].pkts| && s.groups[k].pkts[i].num == num
  }

  /** Creates the group if needed, then appends the packet. */
  function AddPacket(s: AssemblerState, k: Key, p: GroupPacket, now: int): AssemblerState {
    if k in s.groups then
      var g := s.groups[k];
      s.(groups := s.groups[k := g.(pkts := g.pkts + [p], hasMarker := g.hasMarker || p.marker)])
    else
      s.(groups := s.groups[k := Group([p], now, 0, p.marker)], groupOrder := s.groupOrder + [k])
  }

  /** Arms the repair deadline of a group that has none. */
  function Arm(c: Config, s: AssemblerState, k: Key, now: int): AssemblerState
    requires k in s.groups
  {
    s.(groups := s.groups[k := s.groups[k].(deadline := now + c.repairWait)],
       deadlineOrder := s.deadlineOrder + [k])
  }

  /** The part `flush_group` and `drop_group` share: the group leaves and its slots are released. */
  function Retire(s: AssemblerState, k: Key, now: int): AssemblerState
    requires k in s.groups
  {
    s.(groups := s.groups - {k},
       groupOrder := Remove(s.groupOrder, k),
       deadlineOrder := Remove(s.deadlineOrder, k),
       recent := s.recent[k := now],
       free := s.free + Slots(s.groups[k].pkts))
  }

  /** `flush_group` for a pending key. */
  function Flush(s: AssemblerState, k: Key, now: int): AssemblerState
    requires k in s.groups
  {
    var p := SortedPackets(s.groups[k].pkts);
    var m := LastMarkerOf(p);
    Retire(s, k, now).(
      lastMarker := if m.Some? then s.lastMarker[k.ssrc := m.value] else s.lastMarker,
      log := s.log + [Flushed(k, p, !GapFree(p))])
  }

  /** `drop_group` for a pending key. */
  function Drop(s: AssemblerState, k: Key, reason: Reason, now: int): AssemblerState
    requires k in s.groups
  {
    var g := s.groups[k];
    var m := LastMarkerOf(SortedPackets(g.pkts));
    Retire(s, k, now).(
      lastMarker := if m.Some? then s.lastMarker[k.ssrc := m.value] else s.lastMarker - {k.ssrc},
      log := s.log + [Dropped(k, m.Some?, reason, |g.pkts|, now - g.arrival)])
  }

  /** Pruning of the recently flushed keys. */
  function Forget(c: Config, s: AssemblerState, now: int): AssemblerState {
    s.(recent := map k | k in s.recent && now - s.recent[k] <= c.dedupTtl :: s.recent[k])
  }

  // ---- the public operations ----

  function IndexOf(keys: seq<Key>, k: Key): (i: nat)
    ensures i <= |keys|
  {
    if keys == [] || keys[0] == k then 0 else 1 + IndexOf(keys[1..], k)
  }

  /** Arms every listed group that has neither a marker nor a deadline. */
  function ArmUnmarked(c: Config, s: AssemblerState, keys: seq<Key>, now: int): (r: AssemblerState)
    ensures r.groups.Keys == s.groups.Keys
    decreases keys
  {
    if keys == [] then s
    else
      var k := keys[0];
      var s' := if k in s.groups && !s.groups[k].hasMarker && s.groups[k].deadline == 0
                then Arm(c, s, k, now) else s;
      ArmUnmarked(c, s', keys[1..], now)
  }

  predicate Blocked(s: AssemblerState, keys: seq<Key>) {
    exists i :: 0 <= i < |keys| && keys[i] in s.groups && s.groups[keys[i]].deadline != 0
  }

  function ArmIfIdle(c: Config, s: AssemblerState, k: Key, now: int): AssemblerState
    requires k in s.groups
  {
    if s.groups[k].deadline == 0 then Arm(c, s, k, now) else s
  }

  function FlushReady(c: Config, s: AssemblerState, ssrc: U32, now: int): AssemblerState
    decreases |s.groups|
  {
    var keys := OrderedKeys(s, ssrc);
    if keys == [] || keys[0] !in s.groups then s
    else if !Complete(s, keys[0]) then ArmIfIdle(c, s, keys[0], now)
    else
      FlushShrinks(s, keys[0], now);
      FlushReady(c, Flush(s, keys[0], now), ssrc, now)
  }

  lemma FlushShrinks(s: AssemblerState, k: Key, now: int)
    requires k in s.groups
    ensures |Flush(s, k, now).groups| < |s.groups|
  {
    assert s.groups.Keys == (s.groups - {k}).Keys + {k};
    assert |(s.groups - {k}).Keys| == |s.groups - {k}|;
  }

  /** What `queue_packet` does once the packet is in its group and the group has its marker (AVC). */
  function Settle(c: Config, s: AssemblerState, k: Key, now: int): AssemblerState
    requires k in s.groups
  {
    var keys := OrderedKeys(s, k.ssrc);
    var earlier := keys[..IndexOf(keys, k)];
    var s1 := ArmUnmarked(c, s, earlier, now);
    if Blocked(s1, earlier) then s1
    else if !Complete(s1, k) then ArmIfIdle(c, s1, k, now)
    else FlushReady(c, Flush(s1, k, now), k.ssrc, now)
  }

  function QueuePacket(c: Config, s: AssemblerState, k: Key, p: GroupPacket, now: int): AssemblerState {
    if k in s.recent then GiveBack(s, p.slot)
    else
      var s1 := if Holds(s, k, p.num) then GiveBack(s, p.slot) else AddPacket(s, k, p, now);
      if !s1.groups[k].hasMarker then s1
      else if c.codec == Hevc then Flush(s1, k, now)
      else Settle(c, s1, k, now)
  }

  predicate RepairExpired(s: AssemblerState, k: Key, now: int) {
    k in s.groups && s.groups[k].deadline != 0 && now >= s.groups[k].deadline
  }

  predicate TtlExpired(c: Config, s: AssemblerState, k: Key, now: int) {
    k in s.groups && s.groups[k].deadline == 0 && now - s.groups[k].arrival > c.groupTtl
  }

  function RepairExpiredKeys(s: AssemblerState, order: seq<Key>, now: int): seq<Key> {
    if order == [] then []
    else
      var init := RepairExpiredKeys(s, order[..|order| - 1], now);
      var k := order[|order| - 1];
      if RepairExpired(s, k, now) then init + [k] else init
  }

  function TtlExpiredKeys(c: Config, s: AssemblerState, order: seq<Key>, now: int): seq<Key> {
    if order == [] then []
    else
      var init := TtlExpiredKeys(c, s, order[..|order| - 1], now);
      var k := order[|order| - 1];
      if TtlExpired(c, s, k, now) then init + [k] else init
  }

  /** Drops the listed groups in order; a key that is no longer pending is skipped. */
  function DropAll(s: AssemblerState, keys: seq<Key>, reason: Reason, now: int): AssemblerState
    decreases keys
  {
    if keys == [] then s
    else
      var s' := if keys[0] in s.groups then Drop(s, keys[0], reason, now) else s;
      DropAll(s', keys[1..], reason, now)
  }

  /** Insertion into the ascending `std::set` of unblocked SSRCs. */
  function InsertSsrc(s: seq<U32>, x: U32): seq<U32> {
    if s == [] || x < s[0] then [x] + s
    else if x == s[0] then s
    else [s[0]] + InsertSsrc(s[1..], x)
  }

  function SsrcsOf(keys: seq<Key>, acc: seq<U32>): seq<U32> {
    if keys == [] then acc else SsrcsOf(keys[1..], InsertSsrc(acc, keys[0].ssrc))
  }

  function FlushReadyAll(c: Config, s: AssemblerState, ssrcs: seq<U32>, now: int): AssemblerState
    decreases ssrcs
  {
    if ssrcs == [] then s else FlushReadyAll(c, FlushReady(c, s, ssrcs[0], now), ssrcs[1..], now)
  }

  function EvictStale(c: Config, s: AssemblerState, now: int): AssemblerState {
    var expired := RepairExpiredKeys(s, s.deadlineOrder, now);
    var s1 := DropAll(s, expired, RepairTimeout, now);
    var ttl := TtlExpiredKeys(c, s1, s1.groupOrder, now);
    var s2 := DropAll(s1, ttl, MarkerTimeout, now);
    Forget(c, FlushReadyAll(c, s2, SsrcsOf(ttl, SsrcsOf(expired, [])), now), now)
  }

  /** Slots of all pending groups, group by group in arrival order. */
  function PendingSlots(groups: map<Key, Group>, order: seq<Key>): seq<nat> {
    if order == [] then []
    else (if order[0] in groups then Slots(groups[order[0]].pkts) else []) + PendingSlots(groups, order[1..])
  }

  function Reset(s: AssemblerState): AssemblerState {
    AssemblerState(map[], [], [], map[], map[], s.free + PendingSlots(s.groups, s.groupOrder), s.log + [Restarted])
  }
}
