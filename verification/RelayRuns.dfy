/** What the audio relay keeps over every run: tools/mac-tunnel/audio_relay.go:78-201. */
module RelayRuns {
  import opened Wire
  import opened RelayModel

  /** Among the connected agents exactly the active one is started, and it serves the subscriber's account. */
  ghost predicate Sound<A>(w: World<A>, s: Relay<A>) {
    && (forall a :: a in s.agents ==> (a in s.started <==> s.active == Some(a)))
    && (s.active.Some? ==> s.active.value in s.agents && s.client.Some? && w.uid(s.active.value) == s.clientUid)
  }

  lemma StopSound<A>(w: World<A>, s: Relay<A>)
    requires Sound(w, s)
    ensures var r := StopActive(s);
      Sound(w, r) && r.active.None? && r.agents == s.agents && forall a :: a in r.agents ==> a !in r.started
  {
  }

  lemma SwitchSound<A>(w: World<A>, s: Relay<A>, from: Address, uid: U32, now: int)
    requires Sound(w, s)
    ensures var r := Switch(s, from, uid, now);
      Sound(w, r) && r.client == Some(from) && r.clientUid == uid && r.agents == s.agents && r.lastSub == now
  {
    hide StopActive;
    StopSound(w, s);
  }

  lemma ActivateSound<A>(w: World<A>, s: Relay<A>, account: string, pick: Option<A>)
    requires Sound(w, s) && s.client.Some? && Choosable(w, s, s.clientUid, pick)
    ensures var r := Activate(s, s.client.value, account, pick);
      Sound(w, r) && r.client == s.client && r.clientUid == s.clientUid && r.lastSub == s.lastSub
  {
  }

  lemma ReceiveSound<A>(w: World<A>, s: Relay<A>, e: Event<A>)
    requires e.Receive? && Sound(w, s) && Legal(w, s, e)
    ensures Sound(w, Apply(w, s, e))
  {
    hide Switch, Activate, StopActive, ParseSub, Choosable;
    var r := ParseSub(e.b);
    StopSound(w, s);
    if r.Subscribe? && Resolved(s, r.account, e.lookup).Some? {
      var uid := Resolved(s, r.account, e.lookup).value;
      var s1 := s.(cache := s.cache[r.account := uid]);
      SwitchSound(w, s1, e.from, uid, e.now);
      var s2 := Switch(s1, e.from, uid, e.now);
      ChoosableSame(w, s, s2, uid, e.pick);
      ActivateSound(w, s2, r.account, e.pick);
    }
  }

  lemma ChoosableSame<A>(w: World<A>, s: Relay<A>, r: Relay<A>, uid: U32, pick: Option<A>)
    requires r.agents == s.agents && Choosable(w, s, uid, pick)
    ensures Choosable(w, r, uid, pick)
  {
  }

  lemma StepSound<A>(w: World<A>, s: Relay<A>, e: Event<A>)
    requires Sound(w, s) && Legal(w, s, e)
    ensures Sound(w, Apply(w, s, e))
  {
    if e.Receive? {
      ReceiveSound(w, s, e);
    } else {
      hide ParseSub;
      StopSound(w, s);
    }
  }

  /** The relay stays sound in every run. */
  lemma {:induction false} AlwaysSound<A>(w: World<A>, es: seq<Event<A>>, i: nat)
    requires LegalRun(w, es) && i <= |es|
    ensures Sound(w, After(w, es, i))
  {
    hide Apply, Legal, Sound;
    if i == 0 {
      EmptySound(w);
    } else {
      AlwaysSound(w, es, i - 1);
      StepSound(w, After(w, es, i - 1), es[i - 1]);
    }
  }

  lemma EmptySound<A>(w: World<A>)
    ensures Sound(w, Empty())
  {
  }

  /** A connecting agent keeps the relay sound exactly when it is not already marked started, or is the active one. */
  lemma ConnectSoundIff<A>(w: World<A>, s: Relay<A>, a: A)
    requires Sound(w, s)
    ensures Sound(w, AddAgent(s, a)) <==> (a in s.started ==> s.active == Some(a))
  {
    var r := AddAgent(s, a);
    assert a in r.agents;
  }

  function AlwaysSeven(a: int): U32 { 7 }

  function Untrimmed(s: string): string { s }

  /** An agent that disconnects while started and connects again: started, connected and not active. */
  lemma ReconnectBreaks()
    ensures
      var w := World(AlwaysSeven, Untrimmed);
      var es := [Connect(1), Receive("c", "SCAU1 sub me", 5, Some(7), Some(1)), Disconnect(1), Connect(1)];
      !Sound(w, After(w, es, 4))
  {
    var w := World(AlwaysSeven, Untrimmed);
    var sub := "SCAU1 sub me";
    var es: seq<Event<int>> := [Connect(1), Receive("c", sub, 5, Some(7), Some(1)), Disconnect(1), Connect(1)];
    assert sub == SUB + "me" + "";
    SubscribeReads("me", "");
    hide ParseSub;
    var s1 := After(w, es, 1);
    assert s1 == Apply(w, After(w, es, 0), es[0]);
    assert s1.agents == {1} && s1.started == {} && s1.active == None && s1.client == None;
    var s2 := After(w, es, 2);
    assert s2 == Apply(w, s1, es[1]);
    assert 1 in s2.started;
    var s3 := After(w, es, 3);
    assert s3 == Apply(w, s2, es[2]) && 1 in s3.started && s3.active == None;
    var s4 := After(w, es, 4);
    assert s4 == Apply(w, s3, es[3]) && 1 in s4.agents && 1 in s4.started && s4.active == None;
  }

  /** A tick past the timeout leaves no subscriber and no connected agent started. */
  lemma TimeoutStopsAll<A>(w: World<A>, es: seq<Event<A>>, i: nat, now: int)
    requires LegalRun(w, es) && i <= |es|
    requires var s := After(w, es, i); s.client.Some? && now - s.lastSub > TIMEOUT
    ensures var r := Tick(After(w, es, i), now);
      r.client.None? && r.active.None? && forall a :: a in r.agents ==> a !in r.started
  {
    hide After, LegalRun;
    AlwaysSound(w, es, i);
    StopSound(w, After(w, es, i));
  }

  // ---- commands ----

  /** The commands one agent received, in order; true is start. */
  function CommandsOf<A(==)>(log: seq<Output<A>>, a: A): seq<bool> {
    if log == [] then []
    else
      var o := log[|log| - 1];
      CommandsOf(log[..|log| - 1], a) + (if o.Command? && o.agent == a then [o.start] else [])
  }

  /** Start, stop, start, …; the last one was a start exactly when the agent counts as started. */
  ghost predicate Alternates<A>(s: Relay<A>, a: A) {
    var cs := CommandsOf(s.log, a);
    && (forall i :: 0 <= i < |cs| ==> (cs[i] <==> i % 2 == 0))
    && (a in s.started <==> |cs| % 2 == 1)
  }

  lemma EmitCommands<A>(s: Relay<A>, o: Output<A>, a: A)
    ensures CommandsOf(Emit(s, o).log, a)
         == CommandsOf(s.log, a) + (if o.Command? && o.agent == a then [o.start] else [])
  {
    assert (s.log + [o])[..|s.log|] == s.log;
  }

  lemma StopAlternates<A>(s: Relay<A>, a: A)
    requires Alternates(s, a)
    ensures Alternates(StopActive(s), a)
  {
    hide CommandsOf;
    if s.active.Some? && s.active.value in s.started {
      EmitCommands(s, Command(s.active.value, false), a);
    }
  }

  lemma ActivateAlternates<A>(s: Relay<A>, from: Address, account: string, pick: Option<A>, a: A)
    requires Alternates(s, a)
    ensures Alternates(Activate(s, from, account, pick), a)
  {
    hide CommandsOf;
    var active := if s.active.Some? then s.active else pick;
    var s1 := s.(active := active);
    if active.None? {
      EmitCommands(s1, Status(from, "SCAU1 status no-agent " + account), a);
    } else if active.value !in s1.started {
      EmitCommands(s1, Command(active.value, true), a);
    }
  }

  lemma ReceiveAlternates<A>(s: Relay<A>, e: Event<A>, a: A)
    requires e.Receive? && Alternates(s, a)
    ensures Alternates(Datagram(s, e.from, e.b, e.now, e.lookup, e.pick), a)
  {
    hide Activate, StopActive, ParseSub, CommandsOf;
    var r := ParseSub(e.b);
    StopAlternates(s, a);
    if r.Subscribe? {
      var uid := Resolved(s, r.account, e.lookup);
      if uid.None? {
        EmitCommands(s, Status(e.from, "SCAU1 status unknown-account " + r.account), a);
      } else {
        var s1 := s.(cache := s.cache[r.account := uid.value]);
        StopAlternates(s1, a);
        ActivateAlternates(Switch(s1, e.from, uid.value, e.now), e.from, r.account, e.pick, a);
      }
    }
  }

  lemma StepAlternates<A>(w: World<A>, s: Relay<A>, e: Event<A>, a: A)
    requires Alternates(s, a)
    ensures Alternates(Apply(w, s, e), a)
  {
    hide StopActive, Datagram, CommandsOf, ParseSub;
    match e
    case Receive(_, _, _, _, _) => ReceiveAlternates(s, e, a);
    case Frame(_, _, _, _) =>
      var r := Apply(w, s, e);
      if r.log != s.log {
        EmitCommands(s, r.log[|s.log|], a);
      }
    case _ => StopAlternates(s, a);
  }

  /** In every run each agent is told start and stop in turn, beginning with start. */
  lemma {:induction false} CommandsAlternate<A>(w: World<A>, es: seq<Event<A>>, i: nat, a: A)
    requires i <= |es|
    ensures Alternates(After(w, es, i), a)
  {
    hide Apply;
    if i > 0 {
      CommandsAlternate(w, es, i - 1, a);
      StepAlternates(w, After(w, es, i - 1), es[i - 1], a);
    }
  }

  // ---- audio ----

  ghost predicate NoAudio<A>(before: seq<Output<A>>, after: seq<Output<A>>) {
    before <= after && forall k :: |before| <= k < |after| ==> !after[k].Audio?
  }

  lemma ReceiveSilent<A>(s: Relay<A>, e: Event<A>)
    requires e.Receive?
    ensures NoAudio(s.log, Datagram(s, e.from, e.b, e.now, e.lookup, e.pick).log)
  {
    hide ParseSub;
  }

  /**
   * Audio leaves the relay only as the frame just received from the active agent, which is connected and of
   * the subscriber's account, and goes to that subscriber; and every such frame is forwarded.
   */
  lemma AudioToSubscriber<A>(w: World<A>, es: seq<Event<A>>, i: nat)
    requires LegalRun(w, es) && i < |es|
    ensures var s, r, e := After(w, es, i), After(w, es, i + 1), es[i];
      if e.Frame? && e.kind == FRAME_AUDIO && s.active == Some(e.agent) then
        && e.agent in s.agents && s.client.Some? && w.uid(e.agent) == s.clientUid
        && r.log == s.log + [Audio(s.client.value, e.agent, e.payload)]
      else NoAudio(s.log, r.log)
  {
    var s, e := After(w, es, i), es[i];
    AlwaysSound(w, es, i);
    hide LegalRun, Datagram;
    if e.Receive? {
      ReceiveSilent(s, e);
    }
  }

  // ---- the subscriber ----

  /** Event `m` is the latest renewal of the subscription in force after `i` events. */
  ghost predicate RenewedAt<A>(w: World<A>, es: seq<Event<A>>, i: nat, m: nat)
    requires i <= |es|
  {
    && m < i && es[m].Receive? && ParseSub(es[m].b).Subscribe?
    && (var s := After(w, es, i);
        && s.client == Some(es[m].from) && s.lastSub == es[m].now
        && Resolved(After(w, es, m), ParseSub(es[m].b).account, es[m].lookup) == Some(s.clientUid)
        && forall q :: m < q <= i ==> SameSubscription(After(w, es, q), s))
  }

  predicate SameSubscription<A>(s: Relay<A>, r: Relay<A>) {
    s.client == r.client && s.clientUid == r.clientUid && s.lastSub == r.lastSub
  }

  predicate Renews<A>(s: Relay<A>, e: Event<A>) {
    e.Receive? && ParseSub(e.b).Subscribe? && Resolved(s, ParseSub(e.b).account, e.lookup).Some?
  }

  lemma StepSubscription<A>(w: World<A>, s: Relay<A>, e: Event<A>)
    ensures var r := Apply(w, s, e);
      if Renews(s, e) then
        r.client == Some(e.from) && r.lastSub == e.now
        && Resolved(s, ParseSub(e.b).account, e.lookup) == Some(r.clientUid)
      else r.client.None? || SameSubscription(s, r)
  {
    hide ParseSub;
  }

  /** Whoever is the subscriber last asked for just that account, at the time the relay remembers. */
  lemma {:induction false} SubscriberAsked<A>(w: World<A>, es: seq<Event<A>>, i: nat) returns (m: nat)
    requires i <= |es| && After(w, es, i).client.Some?
    ensures RenewedAt(w, es, i, m)
  {
    hide Apply, ParseSub, Resolved;
    var s, e := After(w, es, i - 1), es[i - 1];
    StepSubscription(w, s, e);
    if Renews(s, e) {
      m := i - 1;
    } else {
      m := SubscriberAsked(w, es, i - 1);
      assert SameSubscription(s, After(w, es, i));
    }
  }

  // ---- how a subscription ends ----

  /** `b` is the goodbye text and line ends. */
  ghost predicate SaysBye(b: string) {
    exists tail :: b == BYE + tail && LineEnds(tail)
  }

  /** The event ends a subscription of `client` last renewed at `renewed`. */
  ghost predicate Ends<A>(e: Event<A>, client: Address, renewed: int) {
    || (e.Receive? && e.from == client && SaysBye(e.b))
    || (e.TimerTick? && e.now - renewed > TIMEOUT)
  }

  /** Nobody is active or started any more, and the agent that was is told to stop. */
  ghost predicate Silenced<A>(s: Relay<A>, r: Relay<A>) {
    && r.client.None? && r.active.None? && r.agents == s.agents && (forall a :: a in r.agents ==> a !in r.started)
    && r.log == s.log + if s.active.Some? then [Command(s.active.value, false)] else []
  }

  lemma StepEnds<A>(w: World<A>, s: Relay<A>, e: Event<A>)
    requires Sound(w, s) && s.client.Some?
    ensures var r := Apply(w, s, e);
      if Ends(e, s.client.value, s.lastSub) then Silenced(s, r)
      else r.client.Some? && (Renews(s, e) || SameSubscription(s, r))
  {
    hide ParseSub;
    if e.Receive? {
      ByeIff(e.b);
    }
  }

  /**
   * In every run a subscription ends at an event if and only if that is a goodbye from the subscriber's own
   * address, or a tick more than the timeout after the last renewal; then nobody stays active or started.
   */
  lemma SubscriptionEndsIff<A>(w: World<A>, es: seq<Event<A>>, i: nat)
    requires LegalRun(w, es) && i < |es| && After(w, es, i).client.Some?
    ensures var s, r := After(w, es, i), After(w, es, i + 1);
      && (r.client.None? <==> Ends(es[i], s.client.value, s.lastSub))
      && (r.client.None? ==> Silenced(s, r))
  {
    hide Apply, LegalRun, Sound, Ends;
    AlwaysSound(w, es, i);
    StepEnds(w, After(w, es, i), es[i]);
  }

  /** A goodbye from anyone else changes nothing. */
  lemma OtherByeIgnored<A>(w: World<A>, es: seq<Event<A>>, i: nat)
    requires i < |es| && es[i].Receive? && SaysBye(es[i].b) && After(w, es, i).client != Some(es[i].from)
    ensures After(w, es, i + 1) == After(w, es, i)
  {
    hide ParseSub;
    ByeIff(es[i].b);
  }

  /** Event `m` renewed, and none after it renewed or ended what it renewed. */
  ghost predicate InForce<A>(w: World<A>, es: seq<Event<A>>, i: nat, m: nat)
    requires i <= |es|
  {
    && m < i && Renews(After(w, es, m), es[m])
    && forall q :: m < q < i ==> !Renews(After(w, es, q), es[q]) && !Ends(es[q], es[m].from, es[m].now)
  }

  lemma {:induction false} InForceHolds<A>(w: World<A>, es: seq<Event<A>>, i: nat, m: nat)
    requires LegalRun(w, es) && i <= |es| && InForce(w, es, i, m)
    ensures After(w, es, i).client == Some(es[m].from) && After(w, es, i).lastSub == es[m].now
  {
    hide Apply, LegalRun, Ends, Resolved, ParseSub, Sound;
    var s, e := After(w, es, i - 1), es[i - 1];
    StepSubscription(w, s, e);
    if m < i - 1 {
      InForceHolds(w, es, i - 1, m);
      assert !Renews(s, e) && !Ends(e, es[m].from, es[m].now);
      AlwaysSound(w, es, i - 1);
      StepEnds(w, s, e);
    }
  }

  lemma {:induction false} SubscribedBy<A>(w: World<A>, es: seq<Event<A>>, i: nat) returns (m: nat)
    requires LegalRun(w, es) && i <= |es| && After(w, es, i).client.Some?
    ensures InForce(w, es, i, m)
  {
    hide Apply, LegalRun, Ends, Sound, Resolved, ParseSub;
    var s, e := After(w, es, i - 1), es[i - 1];
    StepSubscription(w, s, e);
    if Renews(s, e) {
      m := i - 1;
    } else {
      m := SubscribedBy(w, es, i - 1);
      InForceHolds(w, es, i - 1, m);
      AlwaysSound(w, es, i - 1);
      StepEnds(w, s, e);
      assert !Ends(e, es[m].from, es[m].now) by { EndsSilences(w, s, e); }
    }
  }

  lemma EndsSilences<A>(w: World<A>, s: Relay<A>, e: Event<A>)
    requires Sound(w, s) && s.client.Some? && Apply(w, s, e).client.Some?
    ensures !Ends(e, s.client.value, s.lastSub)
  {
    hide Apply, Ends;
    StepEnds(w, s, e);
  }

  /** There is a subscriber if and only if some renewal has been neither replaced nor ended since. */
  lemma SubscribedIff<A>(w: World<A>, es: seq<Event<A>>, i: nat)
    requires LegalRun(w, es) && i <= |es|
    ensures After(w, es, i).client.Some? <==> exists m: nat :: InForce(w, es, i, m)
  {
    hide LegalRun, InForce, After;
    if After(w, es, i).client.Some? {
      var m := SubscribedBy(w, es, i);
    }
    if m: nat :| InForce(w, es, i, m) {
      InForceHolds(w, es, i, m);
    }
  }

  // ---- what a renewal does ----

  /** An agent of the account is connected. */
  predicate Served<A>(w: World<A>, s: Relay<A>, uid: U32) {
    exists a :: a in s.agents && w.uid(a) == uid
  }

  /** What is sent: nothing to an agent that goes on; else the old one is stopped, then one of the account started. */
  ghost predicate Answered<A>(w: World<A>, s: Relay<A>, e: Event<A>, r: Relay<A>, account: string, uid: U32)
    requires e.Receive?
  {
    var goesOn := s.client == Some(e.from) && s.clientUid == uid && s.active.Some?;
    var stop := if s.active.Some? then [Command(s.active.value, false)] else [];
    if goesOn then r.active == s.active && r.log == s.log
    else if r.active.Some? then r.log == s.log + stop + [Command(r.active.value, true)]
    else r.log == s.log + stop + [Status(e.from, "SCAU1 status no-agent " + account)]
  }

  lemma RenewAnswers<A>(w: World<A>, s: Relay<A>, e: Event<A>)
    requires Sound(w, s) && Legal(w, s, e) && Renews(s, e)
    ensures var r, account := Apply(w, s, e), ParseSub(e.b).account;
      var uid := Resolved(s, account, e.lookup).value;
      && Answered(w, s, e, r, account, uid)
      && (r.active.Some? <==> Served(w, s, uid))
      && (r.active.Some? ==> r.active.value in r.started && r.active.value in s.agents && w.uid(r.active.value) == uid)
  {
    hide ParseSub;
    var account := ParseSub(e.b).account;
    var uid := Resolved(s, account, e.lookup).value;
    var s1 := s.(cache := s.cache[account := uid]);
    var s2 := Switch(s1, e.from, uid, e.now);
    var r := Activate(s2, e.from, account, e.pick);
    assert s2.agents == s.agents;
    SwitchSound(w, s1, e.from, uid, e.now);
    ChoosableSame(w, s, s2, uid, e.pick);
    ActivateSound(w, s2, account, e.pick);
    if r.active.Some? {
      assert r.active.value in s.agents && w.uid(r.active.value) == uid;
    }
  }

  /**
   * A renewal has an agent of the account started if and only if one is connected, also one that connected
   * since, and an agent that already serves this subscriber is told nothing.
   */
  lemma RenewalStarts<A>(w: World<A>, es: seq<Event<A>>, i: nat)
    requires LegalRun(w, es) && i < |es| && Renews(After(w, es, i), es[i])
    ensures var s, r, account := After(w, es, i), After(w, es, i + 1), ParseSub(es[i].b).account;
      var uid := Resolved(s, account, es[i].lookup).value;
      && Answered(w, s, es[i], r, account, uid)
      && (r.active.Some? <==> Served(w, s, uid))
      && (r.active.Some? ==> r.active.value in r.started && r.active.value in s.agents && w.uid(r.active.value) == uid)
  {
    hide Apply, Sound, Answered, Legal, Served, ParseSub, Resolved;
    AlwaysSound(w, es, i);
    RenewAnswers(w, After(w, es, i), es[i]);
  }

  lemma StepCache<A>(w: World<A>, s: Relay<A>, e: Event<A>)
    ensures var r := Apply(w, s, e);
      && (forall a :: a in s.cache ==> a in r.cache && r.cache[a] == s.cache[a])
      && (Renews(s, e) ==>
          && ParseSub(e.b).account in r.cache
          && Resolved(s, ParseSub(e.b).account, e.lookup) == Some(r.cache[ParseSub(e.b).account]))
  {
    hide ParseSub;
  }

  /** The database is asked once for each account: a renewal that resolved decides all later ones. */
  lemma {:induction false} ResolvedOnce<A>(w: World<A>, es: seq<Event<A>>, i: nat, j: nat, lookup: Option<U32>)
    requires i < j <= |es| && Renews(After(w, es, i), es[i])
    ensures var account := ParseSub(es[i].b).account;
      && account in After(w, es, j).cache
      && Resolved(After(w, es, j), account, lookup) == Resolved(After(w, es, i), account, es[i].lookup)
  {
    hide Apply, ParseSub;
    StepCache(w, After(w, es, j - 1), es[j - 1]);
    if i < j - 1 {
      ResolvedOnce(w, es, i, j - 1, lookup);
    }
  }

  /** A status text of the active agent goes to the subscriber, trimmed; one of any other agent goes nowhere. */
  lemma StatusToSubscriber<A>(w: World<A>, es: seq<Event<A>>, i: nat)
    requires LegalRun(w, es) && i < |es| && es[i].Frame? && es[i].kind == FRAME_STATUS
    ensures var s, r, e := After(w, es, i), After(w, es, i + 1), es[i];
      if s.active == Some(e.agent) then
        s.client.Some? && r == s.(log := s.log + [Status(s.client.value, "SCAU1 status " + w.trim(e.text))])
      else r == s
  {
    AlwaysSound(w, es, i);
    hide LegalRun;
  }

  /** A subscription to an account that does not resolve is answered, and changes nothing else. */
  lemma UnknownAccountAnswered<A>(w: World<A>, es: seq<Event<A>>, i: nat, account: string, tail: string)
    requires i < |es| && es[i].Receive? && es[i].b == SUB + account + tail
    requires ValidAccount(account) && !LineEnd(account[|account| - 1]) && LineEnds(tail)
    requires account !in After(w, es, i).cache && es[i].lookup.None?
    ensures var s := After(w, es, i);
      After(w, es, i + 1) == s.(log := s.log + [Status(es[i].from, "SCAU1 status unknown-account " + account)])
  {
    SubscribeReads(account, tail);
    hide ParseSub;
  }

  /** A datagram that is neither a subscription nor a goodbye changes nothing. */
  lemma OtherDatagramsIgnored<A>(w: World<A>, es: seq<Event<A>>, i: nat)
    requires i < |es| && es[i].Receive? && !SaysBye(es[i].b)
    requires !exists account, tail :: es[i].b == SUB + account + tail && LineEnds(tail)
               && ValidAccount(account) && !LineEnd(account[|account| - 1])
    ensures After(w, es, i + 1) == After(w, es, i)
  {
    hide SaysBye;
    var b := es[i].b;
    ByeSaid(b);
    var r := ParseSub(b);
    if r.Subscribe? {
      var tail := SubscribeIs(b, r.account);
    }
    hide ParseSub;
  }

  lemma ByeSaid(b: string)
    ensures ParseSub(b) == Bye <==> SaysBye(b)
  {
    ByeIff(b);
  }

  // ---- the count of forwarded packets ----

  /** The event changes the subscriber or the account. */
  predicate Switches<A>(s: Relay<A>, e: Event<A>) {
    Renews(s, e) &&
    (s.client != Some(e.from) || Resolved(s, ParseSub(e.b).account, e.lookup) != Some(s.clientUid))
  }

  /** Audio frames of the active agent since the subscription last changed or ended. */
  ghost function Forwarded<A>(w: World<A>, es: seq<Event<A>>, i: nat): nat
    requires i <= |es|
  {
    if i == 0 then 0
    else
      var s, e := After(w, es, i - 1), es[i - 1];
      if (s.client.Some? && Ends(e, s.client.value, s.lastSub)) || Switches(s, e) then 0
      else if e.Frame? && e.kind == FRAME_AUDIO && s.active == Some(e.agent) then Forwarded(w, es, i - 1) + 1
      else Forwarded(w, es, i - 1)
  }

  lemma StepForwarded<A>(w: World<A>, s: Relay<A>, e: Event<A>)
    requires Sound(w, s)
    ensures Apply(w, s, e).forwarded ==
      if (s.client.Some? && Ends(e, s.client.value, s.lastSub)) || Switches(s, e) then 0
      else if e.Frame? && e.kind == FRAME_AUDIO && s.active == Some(e.agent) then s.forwarded + 1
      else s.forwarded
  {
    hide ParseSub;
    if e.Receive? {
      ByeIff(e.b);
    }
  }

  lemma {:induction false} ForwardedIs<A>(w: World<A>, es: seq<Event<A>>, i: nat)
    requires LegalRun(w, es) && i <= |es|
    ensures After(w, es, i).forwarded == Forwarded(w, es, i)
  {
    hide Apply, LegalRun, Sound, Ends, Switches;
    if i > 0 {
      ForwardedIs(w, es, i - 1);
      AlwaysSound(w, es, i - 1);
      StepForwarded(w, After(w, es, i - 1), es[i - 1]);
    }
  }
}
