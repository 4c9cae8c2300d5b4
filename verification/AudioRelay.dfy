/** The session audio relay as objects: tools/mac-tunnel/audio_relay.go:46-201. */
module AudioRelay {
  import opened Wire
  import opened Bytes
  import opened RelayModel
  import opened RelayRuns

  /** One connected audio agent; the relay sets its flag. */
  class RelayAgent {
    const uid: U32
    var started: bool

    constructor (uid: U32)
      ensures this.uid == uid && !started
    {
      this.uid := uid;
      started := false;
    }
  }

  function UidOf(a: RelayAgent): U32 {
    a.uid
  }

  /** `log` records what `cmd` and `send` were called with; `seen` every agent ever connected. */
  class SessionRelay {
    const trim: string -> string
    var agents: set<RelayAgent>
    var active: RelayAgent?
    var client: Option<Address>
    var clientUid: U32
    var lastSub: int
    var cache: map<string, U32>
    var forwarded: nat
    var log: seq<Output<RelayAgent>>
    ghost var seen: set<RelayAgent>

    ghost predicate Linked()
      reads this
    {
      agents <= seen && (active != null ==> active in seen)
    }

    /** Among the connected agents exactly the active one is started, for the subscriber's account. */
    ghost predicate Valid()
      reads this, seen
    {
      Linked() && Sound(TheWorld(), State())
    }

    ghost function State(): Relay<RelayAgent>
      reads this, seen
    {
      Relay(agents, set a | a in seen && a.started, if active == null then None else Some(active),
            client, clientUid, lastSub, cache, forwarded, log)
    }

    ghost function TheWorld(): World<RelayAgent>
      reads this
    {
      World(UidOf, trim)
    }

    constructor (trim: string -> string)
      ensures Valid() && State() == Empty() && this.trim == trim && seen == {}
    {
      this.trim := trim;
      agents, active := {}, null;
      client, clientUid, lastSub := None, 0, 0;
      cache, forwarded, log := map[], 0, [];
      seen := {};
    }

    /** The relay stays valid if and only if the agent is not started, or is the active one. */
    method Add(a: RelayAgent)
      requires Valid()
      modifies this
      ensures Linked() && seen == old(seen) + {a}
      ensures
        var s := AddAgent(old(State()), a);
        State() == s.(started := s.started + if a.started then {a} else {})
      ensures Valid() <==> (a.started ==> active == a)
    {
      agents := agents + {a};
      seen := seen + {a};
    }

    method Remove(a: RelayAgent)
      requires Valid()
      modifies this
      ensures Valid() && seen == old(seen) && State() == RemoveAgent(old(State()), a)
    {
      agents := agents - {a};
      if active == a {
        active := null;
      }
    }

    method OnAgentFrame(a: RelayAgent, kind: nat, payload: Bytes, text: string)
      requires Valid()
      modifies this
      ensures Valid() && seen == old(seen)
      ensures State() == AgentFrame(TheWorld(), old(State()), a, kind, payload, text)
    {
      if kind == FRAME_AUDIO {
        if active == a && client.Some? {
          log := log + [Audio(client.value, a, payload)];
          forwarded := forwarded + 1;
        }
      } else if kind == FRAME_STATUS {
        if active == a && client.Some? {
          log := log + [Status(client.value, "SCAU1 status " + trim(text))];
        }
      }
    }

    method Stop()
      requires Linked()
      modifies this, seen
      ensures Linked() && seen == old(seen) && State() == StopActive(old(State()))
    {
      if active != null && active.started {
        log := log + [Command(active, false)];
        active.started := false;
      }
      active := null;
      forwarded := 0;
    }

    /** The map iteration that picks an agent of the account. */
    method Choose(uid: U32) returns (pick: RelayAgent?)
      requires Linked()
      ensures Choosable(TheWorld(), State(), uid, if pick == null then None else Some(pick))
    {
      var left := agents;
      pick := null;
      while left != {}
        invariant left <= agents
        invariant forall a :: a in agents - left ==> a.uid != uid
        decreases |left|
      {
        var a :| a in left;
        if a.uid == uid {
          return a;
        }
        left := left - {a};
      }
    }

    method OnDatagram(from: Address, b: string, now: int, lookup: Option<U32>) returns (ghost pick: Option<RelayAgent>)
      requires Valid()
      modifies this, seen
      ensures Valid() && seen == old(seen)
      ensures State() == Datagram(old(State()), from, b, now, lookup, pick)
      ensures Legal(old(TheWorld()), old(State()), Receive(from, b, now, lookup, pick))
    {
      hide Sound, Datagram, Legal;
      ghost var w, s := TheWorld(), State();
      pick := Handle(from, b, now, lookup);
      StepSound(w, s, Receive(from, b, now, lookup, pick));
    }

    method Handle(from: Address, b: string, now: int, lookup: Option<U32>) returns (ghost pick: Option<RelayAgent>)
      requires Linked()
      modifies this, seen
      ensures Linked() && seen == old(seen)
      ensures State() == Datagram(old(State()), from, b, now, lookup, pick)
      ensures Legal(old(TheWorld()), old(State()), Receive(from, b, now, lookup, pick))
    {
      hide ParseSub, StopActive;
      pick := None;
      var request := ParseSub(b);
      match request
      case Malformed =>
      case Bye =>
        if client == Some(from) {
          Stop();
          client := None;
        }
      case Subscribe(account) =>
        var uid;
        if account in cache {
          uid := cache[account];
        } else if lookup.None? {
          log := log + [Status(from, "SCAU1 status unknown-account " + account)];
          return;
        } else {
          uid := lookup.value;
        }
        pick := Subscribed(from, account, uid, now);
    }

    /** What follows once the account is known. */
    method Subscribed(from: Address, account: string, uid: U32, now: int) returns (ghost pick: Option<RelayAgent>)
      requires Linked()
      modifies this, seen
      ensures Linked() && seen == old(seen)
      ensures
        var s := old(State()).(cache := old(cache)[account := uid]);
        State() == Activate(Switch(s, from, uid, now), from, account, pick)
      ensures Choosable(old(TheWorld()), old(State()), uid, pick)
    {
      hide StopActive, Activate, Switch;
      cache := cache[account := uid];
      assert State() == old(State()).(cache := old(cache)[account := uid]);
      Resubscribe(from, uid, now);
      pick := Start(from, account, uid);
    }

    /** A new subscriber, or the same one with another account, ends what was active. */
    method Resubscribe(from: Address, uid: U32, now: int)
      requires Linked()
      modifies this, seen
      ensures Linked() && seen == old(seen) && agents == old(agents)
      ensures State() == Switch(old(State()), from, uid, now)
    {
      if client != Some(from) || clientUid != uid {
        Stop();
        client := Some(from);
        clientUid := uid;
      }
      lastSub := now;
    }

    method Start(from: Address, account: string, uid: U32) returns (ghost pick: Option<RelayAgent>)
      requires Linked()
      modifies this, seen
      ensures Linked() && seen == old(seen) && agents == old(agents)
      ensures State() == Activate(old(State()), from, account, pick)
      ensures Choosable(old(TheWorld()), old(State()), uid, pick)
    {
      var a := Choose(uid);
      pick := if a == null then None else Some(a);
      if active == null {
        active := a;
      }
      if active == null {
        log := log + [Status(from, "SCAU1 status no-agent " + account)];
        return;
      }
      if !active.started {
        log := log + [Command(active, true)];
        active.started := true;
      }
    }

    method OnTick(now: int)
      requires Valid()
      modifies this, seen
      ensures Valid() && seen == old(seen) && State() == Tick(old(State()), now)
    {
      ghost var w, s := TheWorld(), State();
      StepSound(w, s, TimerTick(now));
      if client.Some? && now - lastSub > TIMEOUT {
        Stop();
        client := None;
      }
      assert State() == Tick(s, now);
    }
  }
}
