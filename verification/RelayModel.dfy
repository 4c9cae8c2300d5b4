/** The session audio relay as a function of its state: tools/mac-tunnel/audio_relay.go:78-201. */
module RelayModel {
  import opened Wire
  import opened Bytes

  const TIMEOUT := 3_000_000_000  // nanoseconds
  const MAX_ACCOUNT := 64
  const FRAME_AUDIO := 1
  const FRAME_STATUS := 2

  type Address = string

  // ---- subscriptions ----

  datatype Request = Bye | Subscribe(account: string) | Malformed

  const BYE := "SCAU1 bye"
  const SUB := "SCAU1 sub "

  predicate LineEnd(c: char) {
    c == '\r' || c == '\n'
  }

  /** `strings.TrimRight(s, "\r\n")`. */
  function TrimEnd(s: string): (r: string)
    ensures r <= s && (r != [] ==> !LineEnd(r[|r| - 1]))
    ensures forall i :: |r| <= i < |s| ==> LineEnd(s[i])
  {
    if s != [] && LineEnd(s[|s| - 1]) then TrimEnd(s[..|s| - 1]) else s
  }

  predicate ValidAccount(a: string) {
    0 < |a| <= MAX_ACCOUNT && forall c :: c in a ==> c !in {' ', '\t', '/', '\\', '\0'}
  }

  function ParseSub(b: string): Request {
    var s := TrimEnd(b);
    if s == BYE then Bye
    else if SUB <= s then (if ValidAccount(s[|SUB|..]) then Subscribe(s[|SUB|..]) else Malformed)
    else Malformed
  }

  ghost predicate LineEnds(tail: string) {
    forall i :: 0 <= i < |tail| ==> LineEnd(tail[i])
  }

  lemma {:induction false} TrimEndIs(r: string, tail: string)
    requires r != [] && !LineEnd(r[|r| - 1]) && LineEnds(tail)
    ensures TrimEnd(r + tail) == r
  {
    if tail == [] {
      assert r + tail == r;
    } else {
      TrimEndIs(r, tail[..|tail| - 1]);
      assert (r + tail)[..|r + tail| - 1] == r + tail[..|tail| - 1];
    }
  }

  lemma SubscribeReads(account: string, tail: string)
    requires ValidAccount(account) && !LineEnd(account[|account| - 1]) && LineEnds(tail)
    ensures ParseSub(SUB + account + tail) == Subscribe(account)
  {
    hide TrimEnd;
    var s := SUB + account;
    assert s[|s| - 1] == account[|account| - 1];
    TrimEndIs(s, tail);
    assert s[|SUB|..] == account;
    assert s[6] == 's' && BYE[6] == 'b';
  }

  lemma SubscribeIs(b: string, account: string) returns (tail: string)
    requires ParseSub(b) == Subscribe(account)
    ensures ValidAccount(account) && !LineEnd(account[|account| - 1])
    ensures b == SUB + account + tail && LineEnds(tail)
  {
    hide TrimEnd;
    var s := TrimEnd(b);
    assert s == SUB + account;
    assert s[|s| - 1] == account[|account| - 1];
    tail := b[|s|..];
    assert b == s + tail;
  }

  /** A datagram subscribes to an account exactly when it is the command, the account and line ends. */
  lemma SubscribeIff(b: string, account: string)
    ensures ParseSub(b) == Subscribe(account) <==>
      && ValidAccount(account) && !LineEnd(account[|account| - 1])
      && exists tail :: b == SUB + account + tail && LineEnds(tail)
  {
    hide ParseSub, LineEnds, LineEnd;
    if ParseSub(b) == Subscribe(account) {
      var tail := SubscribeIs(b, account);
    }
    if tail :| && ValidAccount(account) && !LineEnd(account[|account| - 1])
               && b == SUB + account + tail && LineEnds(tail) {
      SubscribeReads(account, tail);
    }
  }

  /** A datagram says goodbye exactly when it is that text and line ends. */
  lemma ByeIff(b: string)
    ensures ParseSub(b) == Bye <==> exists tail :: b == BYE + tail && LineEnds(tail)
  {
    hide TrimEnd;
    if ParseSub(b) == Bye {
      assert b == BYE + b[|BYE|..] && LineEnds(b[|BYE|..]);
    }
    if tail :| b == BYE + tail && LineEnds(tail) {
      assert !LineEnd(BYE[|BYE| - 1]);
      TrimEndIs(BYE, tail);
    }
  }

  // ---- the relay ----

  /** What the agents' connections and the outside provide. */
  datatype World<!A> = World(uid: A -> U32, trim: string -> string)

  datatype Output<A> =
    | Command(agent: A, start: bool)
    | Audio(to: Address, agent: A, payload: Bytes)
    | Status(to: Address, text: string)

  /**
   * `started` holds every agent whose `started` flag is set, connected or not; `log` holds what the relay
   * has sent.
   */
  datatype Relay<!A(==)> = Relay(
    agents: set<A>, started: set<A>, active: Option<A>, client: Option<Address>, clientUid: U32, lastSub: int,
    cache: map<string, U32>, forwarded: nat, log: seq<Output<A>>)

  function Empty<A>(): Relay<A> {
    Relay({}, {}, None, None, 0, 0, map[], 0, [])
  }

  function Emit<A>(s: Relay<A>, o: Output<A>): Relay<A> {
    s.(log := s.log + [o])
  }

  function AddAgent<A>(s: Relay<A>, a: A): Relay<A> {
    s.(agents := s.agents + {a})
  }

  function RemoveAgent<A>(s: Relay<A>, a: A): Relay<A> {
    s.(agents := s.agents - {a}, active := if s.active == Some(a) then None else s.active)
  }

  function AgentFrame<A>(w: World<A>, s: Relay<A>, a: A, kind: nat, payload: Bytes, text: string): Relay<A> {
    if s.active != Some(a) || s.client.None? then s
    else if kind == FRAME_AUDIO then Emit(s, Audio(s.client.value, a, payload)).(forwarded := s.forwarded + 1)
    else if kind == FRAME_STATUS then Emit(s, Status(s.client.value, "SCAU1 status " + w.trim(text)))
    else s
  }

  function StopActive<A>(s: Relay<A>): Relay<A> {
    var s1 := if s.active.Some? && s.active.value in s.started
              then Emit(s, Command(s.active.value, false)).(started := s.started - {s.active.value}) else s;
    s1.(active := None, forwarded := 0)
  }

  function Depart<A>(s: Relay<A>, from: Address): Relay<A> {
    if s.client == Some(from) then StopActive(s).(client := None) else s
  }

  /** A connected agent of the account; `None` only if there is none. */
  predicate Choosable<A>(w: World<A>, s: Relay<A>, uid: U32, pick: Option<A>) {
    if pick.Some? then pick.value in s.agents && w.uid(pick.value) == uid
    else forall a :: a in s.agents ==> w.uid(a) != uid
  }

  /** A changed subscriber or account ends what was active. */
  function Switch<A>(s: Relay<A>, from: Address, uid: U32, now: int): Relay<A> {
    (if s.client != Some(from) || s.clientUid != uid
     then StopActive(s).(client := Some(from), clientUid := uid) else s).(lastSub := now)
  }

  function Activate<A>(s: Relay<A>, from: Address, account: string, pick: Option<A>): Relay<A> {
    var active := if s.active.Some? then s.active else pick;
    var s1 := s.(active := active);
    if active.None? then Emit(s1, Status(from, "SCAU1 status no-agent " + account))
    else if active.value in s1.started then s1
    else Emit(s1, Command(active.value, true)).(started := s1.started + {active.value})
  }

  /** `lookup` is the answer of the account database, consulted for accounts not in the cache. */
  function Resolved<A>(s: Relay<A>, account: string, lookup: Option<U32>): Option<U32> {
    if account in s.cache then Some(s.cache[account]) else lookup
  }

  function Renew<A>(s: Relay<A>, from: Address, account: string, now: int, lookup: Option<U32>, pick: Option<A>)
    : Relay<A>
  {
    var uid := Resolved(s, account, lookup);
    if uid.None? then Emit(s, Status(from, "SCAU1 status unknown-account " + account))
    else Activate(Switch(s.(cache := s.cache[account := uid.value]), from, uid.value, now), from, account, pick)
  }

  function Datagram<A>(s: Relay<A>, from: Address, b: string, now: int, lookup: Option<U32>, pick: Option<A>)
    : Relay<A>
  {
    match ParseSub(b)
    case Malformed => s
    case Bye => Depart(s, from)
    case Subscribe(account) => Renew(s, from, account, now, lookup, pick)
  }

  function Tick<A>(s: Relay<A>, now: int): Relay<A> {
    if s.client.Some? && now - s.lastSub > TIMEOUT then StopActive(s).(client := None) else s
  }

  // ---- runs ----

  datatype Event<A> =
    | Connect(agent: A)
    | Disconnect(agent: A)
    | Frame(agent: A, kind: nat, payload: Bytes, text: string)
    | Receive(from: Address, b: string, now: int, lookup: Option<U32>, pick: Option<A>)
    | TimerTick(now: int)

  function Apply<A>(w: World<A>, s: Relay<A>, e: Event<A>): Relay<A> {
    match e
    case Connect(a) => AddAgent(s, a)
    case Disconnect(a) => RemoveAgent(s, a)
    case Frame(a, kind, payload, text) => AgentFrame(w, s, a, kind, payload, text)
    case Receive(from, b, now, lookup, pick) => Datagram(s, from, b, now, lookup, pick)
    case TimerTick(now) => Tick(s, now)
  }

  /** Whatever agent is picked is a matching connected one, and connecting agents have not been started. */
  predicate Legal<A>(w: World<A>, s: Relay<A>, e: Event<A>) {
    match e
    case Connect(a) => a !in s.started
    case Receive(_, b, _, lookup, pick) =>
      var r := ParseSub(b);
      r.Subscribe? && Resolved(s, r.account, lookup).Some? ==>
        Choosable(w, s, Resolved(s, r.account, lookup).value, pick)
    case _ => true
  }

  function After<A>(w: World<A>, es: seq<Event<A>>, i: nat): Relay<A>
    requires i <= |es|
  {
    if i == 0 then Empty() else Apply(w, After(w, es, i - 1), es[i - 1])
  }

  ghost predicate LegalRun<A>(w: World<A>, es: seq<Event<A>>) {
    forall i :: 0 <= i < |es| ==> Legal(w, After(w, es, i), es[i])
  }
}
