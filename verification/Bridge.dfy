/** The per-host rendezvous connection cache of the GUI bridge, as events between which other requests run:
    every await of the code is a point where any other event may come in. */
module Bridge {
  import opened Bytes

  type Host = string

  /** What a lookup under `host` answered. */
  datatype Descriptor = Descriptor(host: Host, body: seq<byte>)

  datatype Status = Running | Opened | Failed

  /** A handshake, and the connection it opens: both are known by the handshake's number. */
  datatype Handshake = Handshake(host: Host, descriptor: Descriptor, status: Status)

  /** Where a request stands: its lookup is out, it waits for a handshake, it fetches over a connection, or it
      has failed and is about to give up. */
  datatype Phase = Looking(host: Host) | Waiting(host: Host, n: nat) | Fetching(host: Host) | Failing(host: Host)

  datatype State = State(connByHost: map<Host, nat>, inFlight: map<Host, nat>,
                         handshakes: seq<Handshake>, closed: set<nat>, requests: map<nat, Phase>)

  const EMPTY := State(map[], map[], [], {}, map[])

  /** The local descriptor index, and whether an HSDir is configured. */
  datatype Config = Config(index: map<Host, Descriptor>, hsdir: bool)

  /** Giving up evicts the request's host. Only a request that got a connection or failed gives up. */
  datatype Event =
    | Request(host: Host, id: nat)
    | LookupReply(id: nat, descriptor: Option<Descriptor>)
    | HandshakeOk(n: nat)
    | HandshakeFailed(n: nat)
    | Done(id: nat)
    | GiveUp(id: nat)
    | Cleanup

  /** What a request gets at once: a cached connection, a handshake to wait for, a lookup, or an error. */
  datatype Answer = Cached(n: nat) | Joined(n: nat) | Started(n: nat) | LookingUp | NoDescriptor

  // ----- Steps -----

  function Start(s: State, host: Host, d: Descriptor, id: nat): State
  {
    s.(handshakes := s.handshakes + [Handshake(host, d, Running)], inFlight := s.inFlight[host := |s.handshakes|],
       requests := s.requests[id := Waiting(host, |s.handshakes|)])
  }

  function Enter(s: State, id: nat, p: Phase): State { s.(requests := s.requests[id := p]) }

  function EnsureConn(c: Config, s: State, host: Host, id: nat): (State, Answer)
  {
    if host in s.connByHost then (Enter(s, id, Fetching(host)), Cached(s.connByHost[host]))
    else if host in s.inFlight then (Enter(s, id, Waiting(host, s.inFlight[host])), Joined(s.inFlight[host]))
    else if host in c.index then (Start(s, host, c.index[host], id), Started(|s.handshakes|))
    else if c.hsdir then (Enter(s, id, Looking(host)), LookingUp)
    else (Enter(s, id, Failing(host)), NoDescriptor)
  }

  /** The request goes on after its HSDir lookup; nothing is looked at again before the handshake starts. */
  function AfterLookup(s: State, id: nat, d: Option<Descriptor>): State
    requires id in s.requests
  {
    var host := s.requests[id].host;
    if d.Some? then Start(s, host, d.value, id) else Enter(s, id, Failing(host))
  }

  /** Everyone who waits for handshake `n` hears how it ended. */
  function Settle(requests: map<nat, Phase>, n: nat, ok: bool): map<nat, Phase>
  {
    map id | id in requests :: var p := requests[id];
      if p.Waiting? && p.n == n then (if ok then Fetching(p.host) else Failing(p.host)) else p
  }

  function Finish(s: State, n: nat, status: Status): State
    requires n < |s.handshakes|
  {
    var h := s.handshakes[n];
    s.(handshakes := s.handshakes[n := h.(status := status)], inFlight := s.inFlight - {h.host},
       connByHost := if status.Opened? then s.connByHost[h.host := n] else s.connByHost,
       requests := Settle(s.requests, n, status.Opened?))
  }

  function Leave(s: State, id: nat): State { s.(requests := s.requests - {id}) }

  function EvictHost(s: State, host: Host): State
  {
    s.(closed := if host in s.connByHost then s.closed + {s.connByHost[host]} else s.closed,
       connByHost := s.connByHost - {host}, inFlight := s.inFlight - {host})
  }

  function CloseAll(s: State): State
  {
    s.(closed := s.closed + s.connByHost.Values, connByHost := map[])
  }

  predicate Enabled(c: Config, s: State, e: Event)
  {
    match e
    case Request(_, id) => id !in s.requests
    case LookupReply(id, _) => id in s.requests && s.requests[id].Looking?
    case HandshakeOk(n) => n < |s.handshakes| && s.handshakes[n].status.Running?
    case HandshakeFailed(n) => n < |s.handshakes| && s.handshakes[n].status.Running?
    case Done(id) => id in s.requests && s.requests[id].Fetching?
    case GiveUp(id) => id in s.requests && (s.requests[id].Fetching? || s.requests[id].Failing?)
    case Cleanup => true
  }

  function Step(c: Config, s: State, e: Event): State
    requires Enabled(c, s, e)
  {
    match e
    case Request(host, id) => EnsureConn(c, s, host, id).0
    case LookupReply(id, d) => AfterLookup(s, id, d)
    case HandshakeOk(n) => Finish(s, n, Opened)
    case HandshakeFailed(n) => Finish(s, n, Failed)
    case Done(id) => Leave(s, id)
    case GiveUp(id) => EvictHost(Leave(s, id), s.requests[id].host)
    case Cleanup => CloseAll(s)
  }

  ghost predicate Reaches(c: Config, s: State, events: seq<Event>, t: State)
    decreases |events|
  {
    if events == [] then s == t else Enabled(c, s, events[0]) && Reaches(c, Step(c, s, events[0]), events[1..], t)
  }

  // ----- Every interleaving -----

  ghost predicate ValidIndex(c: Config) { forall h :: h in c.index ==> c.index[h].host == h }

  ghost predicate IsFor(s: State, n: nat, host: Host, status: Status)
  {
    n < |s.handshakes| && s.handshakes[n].host == host && s.handshakes[n].status == status
  }

  ghost predicate Inv(s: State)
  {
    && (forall h :: h in s.connByHost ==> IsFor(s, s.connByHost[h], h, Opened) && s.connByHost[h] !in s.closed)
    && (forall h :: h in s.inFlight ==> IsFor(s, s.inFlight[h], h, Running))
    && (forall n :: n in s.closed ==> n < |s.handshakes| && s.handshakes[n].status.Opened?)
  }

  lemma StartKeepsInv(s: State, host: Host, d: Descriptor, id: nat)
    requires Inv(s)
    ensures Inv(Start(s, host, d, id))
  {
  }

  lemma FinishKeepsInv(s: State, n: nat, status: Status)
    requires Inv(s) && n < |s.handshakes| && s.handshakes[n].status.Running? && !status.Running?
    ensures Inv(Finish(s, n, status))
  {
  }

  lemma EvictKeepsInv(s: State, host: Host)
    requires Inv(s)
    ensures Inv(EvictHost(s, host)) && Inv(CloseAll(s))
  {
  }

  lemma StepKeepsInv(c: Config, s: State, e: Event)
    requires Inv(s) && Enabled(c, s, e)
    ensures Inv(Step(c, s, e))
  {
    match e
    case Request(host, id) => if host in c.index { StartKeepsInv(s, host, c.index[host], id); }
    case LookupReply(id, d) => if d.Some? { StartKeepsInv(s, s.requests[id].host, d.value, id); }
    case HandshakeOk(n) => FinishKeepsInv(s, n, Opened);
    case HandshakeFailed(n) => FinishKeepsInv(s, n, Failed);
    case Done(_) =>
    case GiveUp(id) => EvictKeepsInv(Leave(s, id), s.requests[id].host);
    case Cleanup => EvictKeepsInv(s, "");
  }

  lemma {:induction false} ReachableInv(c: Config, s: State, events: seq<Event>, t: State)
    requires Inv(s) && Reaches(c, s, events, t)
    ensures Inv(t)
    decreases |events|
  {
    if events != [] {
      StepKeepsInv(c, s, events[0]);
      ReachableInv(c, Step(c, s, events[0]), events[1..], t);
    }
  }

  /** Every handshake was started with the descriptor of its own host. */
  ghost predicate AllOwn(s: State) { forall n :: 0 <= n < |s.handshakes| ==> s.handshakes[n].descriptor.host == s.handshakes[n].host }

  /** A lookup brings the descriptor of a host that was not asked for; the bridge does not compare them. */
  ghost predicate Misanswers(s: State, e: Event)
  {
    e.LookupReply? && e.id in s.requests && e.descriptor.Some? && e.descriptor.value.host != s.requests[e.id].host
  }

  ghost predicate EverMisanswers(c: Config, s: State, events: seq<Event>)
    decreases |events|
  {
    events != [] && Enabled(c, s, events[0]) && (Misanswers(s, events[0]) || EverMisanswers(c, Step(c, s, events[0]), events[1..]))
  }

  lemma StepKeepsOwnIff(c: Config, s: State, e: Event)
    requires ValidIndex(c) && Enabled(c, s, e)
    ensures AllOwn(Step(c, s, e)) <==> AllOwn(s) && !Misanswers(s, e)
  {
    var t := Step(c, s, e);
    forall n | 0 <= n < |s.handshakes| ensures t.handshakes[n].host == s.handshakes[n].host && t.handshakes[n].descriptor == s.handshakes[n].descriptor {}
    if Misanswers(s, e) { assert t.handshakes[|s.handshakes|].descriptor.host != t.handshakes[|s.handshakes|].host; }
  }

  /** After a run every handshake is with its own host's descriptor exactly if no lookup was answered with
      another host's. */
  lemma {:induction false} OwnDescriptorIff(c: Config, s: State, events: seq<Event>, t: State)
    requires ValidIndex(c) && Reaches(c, s, events, t)
    ensures AllOwn(t) <==> AllOwn(s) && !EverMisanswers(c, s, events)
    decreases |events|
  {
    if events != [] {
      StepKeepsOwnIff(c, s, events[0]);
      OwnDescriptorIff(c, Step(c, s, events[0]), events[1..], t);
    }
  }

  /** In every interleaving: what is cached for a host is an open, never closed connection of its own, what is
      in flight for it is an unfinished handshake of its own, and a request is never answered with anything of
      another host; unless a lookup was misanswered, all with the host's own descriptor. */
  lemma CacheIsSound(c: Config, events: seq<Event>, t: State, host: Host, id: nat)
    requires ValidIndex(c) && Reaches(c, EMPTY, events, t)
    ensures host in t.connByHost ==> var n := t.connByHost[host]; IsFor(t, n, host, Opened) && n !in t.closed
    ensures host in t.inFlight ==> IsFor(t, t.inFlight[host], host, Running)
    ensures var (t', a) := EnsureConn(c, t, host, id);
      && (a.Cached? ==> IsFor(t', a.n, host, Opened) && a.n !in t'.closed)
      && (a.Joined? || a.Started? ==> IsFor(t', a.n, host, Running))
      && (!EverMisanswers(c, EMPTY, events) && (a.Cached? || a.Joined? || a.Started?) ==> t'.handshakes[a.n].descriptor.host == host)
  {
    ReachableInv(c, EMPTY, events, t);
    OwnDescriptorIff(c, EMPTY, events, t);
  }

  // ----- Connections nobody can close any more -----

  /** Open, not closed, and no longer the one cached for its host. */
  ghost predicate Lost(s: State, n: nat)
  {
    && n < |s.handshakes| && s.handshakes[n].status.Opened? && n !in s.closed
    && !(s.handshakes[n].host in s.connByHost && s.connByHost[s.handshakes[n].host] == n)
  }

  /** A handshake finishes for a host that has a connection cached already. */
  ghost predicate Overwrites(s: State, e: Event)
  {
    e.HandshakeOk? && e.n < |s.handshakes| && s.handshakes[e.n].host in s.connByHost
  }

  lemma LostByFinishing(s: State, n: nat, status: Status, m: nat)
    requires Inv(s) && n < |s.handshakes| && s.handshakes[n].status.Running? && !status.Running?
    ensures Lost(Finish(s, n, status), m) <==>
      Lost(s, m) || (status.Opened? && s.handshakes[n].host in s.connByHost && m == s.connByHost[s.handshakes[n].host])
  {
  }

  lemma LostByEvicting(s: State, host: Host, id: nat, m: nat)
    requires Inv(s)
    ensures Lost(EvictHost(Leave(s, id), host), m) <==> Lost(s, m)
    ensures Lost(CloseAll(s), m) <==> Lost(s, m)
  {
  }

  lemma LostByStarting(s: State, host: Host, d: Descriptor, id: nat, m: nat)
    requires Inv(s)
    ensures Lost(Start(s, host, d, id), m) <==> Lost(s, m)
  {
  }

  /** Exactly one kind of event loses a connection, and exactly the one that was cached. Nothing is found again. */
  lemma LostByOverwriting(c: Config, s: State, e: Event, n: nat)
    requires Inv(s) && Enabled(c, s, e)
    ensures Lost(Step(c, s, e), n) <==> Lost(s, n) || (Overwrites(s, e) && n == s.connByHost[s.handshakes[e.n].host])
  {
    match e
    case Request(host, id) => if host in c.index { LostByStarting(s, host, c.index[host], id, n); }
    case LookupReply(id, d) => if d.Some? { LostByStarting(s, s.requests[id].host, d.value, id, n); }
    case HandshakeOk(m) => LostByFinishing(s, m, Opened, n);
    case HandshakeFailed(m) => LostByFinishing(s, m, Failed, n);
    case Done(_) =>
    case GiveUp(id) => LostByEvicting(s, s.requests[id].host, id, n);
    case Cleanup => LostByEvicting(s, "", 0, n);
  }

  ghost predicate EverOverwrites(c: Config, s: State, events: seq<Event>)
    decreases |events|
  {
    events != [] && Enabled(c, s, events[0]) && (Overwrites(s, events[0]) || EverOverwrites(c, Step(c, s, events[0]), events[1..]))
  }

  /** Every connection ever opened ends cached or closed exactly if no handshake of the run finishes for a
      host that has one cached. */
  lemma {:induction false} NothingLostIff(c: Config, s: State, events: seq<Event>, t: State)
    requires Inv(s) && Reaches(c, s, events, t) && forall n :: !Lost(s, n)
    ensures (forall n :: !Lost(t, n)) <==> !EverOverwrites(c, s, events)
    decreases |events|
  {
    if events != [] {
      var e, s' := events[0], Step(c, s, events[0]);
      StepKeepsInv(c, s, e);
      forall n ensures Lost(s', n) <==> Overwrites(s, e) && n == s.connByHost[s.handshakes[e.n].host] { LostByOverwriting(c, s, e, n); }
      if Overwrites(s, e) {
        var n := s.connByHost[s.handshakes[e.n].host];
        assert Lost(s', n);
        LostForever(c, s', events[1..], t, n);
      } else {
        NothingLostIff(c, s', events[1..], t);
      }
    }
  }

  lemma {:induction false} LostForever(c: Config, s: State, events: seq<Event>, t: State, n: nat)
    requires Inv(s) && Reaches(c, s, events, t) && Lost(s, n)
    ensures Lost(t, n)
    decreases |events|
  {
    if events != [] {
      StepKeepsInv(c, s, events[0]);
      LostByOverwriting(c, s, events[0], n);
      LostForever(c, Step(c, s, events[0]), events[1..], t, n);
    }
  }

  // ----- One handshake a host -----

  ghost predicate HasRunning(s: State, host: Host) { exists n :: 0 <= n < |s.handshakes| && IsFor(s, n, host, Running) }

  /** No host has two handshakes running. */
  ghost predicate OneEach(s: State)
  {
    forall m, n :: 0 <= m < n < |s.handshakes| && s.handshakes[m].status.Running? && s.handshakes[n].status.Running?
      ==> s.handshakes[m].host != s.handshakes[n].host
  }

  /** The host an event starts a handshake for: a request finds a local descriptor and neither a connection
      nor a handshake to join, or a lookup found a descriptor. */
  function StartsFor(c: Config, s: State, e: Event): Option<Host>
  {
    match e
    case Request(host, _) => if host !in s.connByHost && host !in s.inFlight && host in c.index then Some(host) else None
    case LookupReply(id, d) => if d.Some? && id in s.requests then Some(s.requests[id].host) else None
    case _ => None
  }

  /** The event starts a handshake for a host that has one running. */
  ghost predicate Doubles(c: Config, s: State, e: Event)
  {
    StartsFor(c, s, e).Some? && HasRunning(s, StartsFor(c, s, e).value)
  }

  lemma HandshakesAfter(c: Config, s: State, e: Event)
    requires Enabled(c, s, e)
    ensures var hs, start := Step(c, s, e).handshakes, StartsFor(c, s, e);
      if start.None? then |hs| == |s.handshakes|
      else exists d :: hs == s.handshakes + [Handshake(start.value, d, Running)]
    ensures forall n :: 0 <= n < |s.handshakes| ==>
      var t, h := Step(c, s, e).handshakes[n], s.handshakes[n]; t.host == h.host && (t.status.Running? ==> h.status.Running?)
  {
    match e
    case Request(host, _) => if StartsFor(c, s, e).Some? { assert Step(c, s, e).handshakes == s.handshakes + [Handshake(host, c.index[host], Running)]; }
    case LookupReply(id, d) => if d.Some? { assert Step(c, s, e).handshakes == s.handshakes + [Handshake(s.requests[id].host, d.value, Running)]; }
    case _ =>
  }

  lemma StepKeepsOneEachIff(c: Config, s: State, e: Event)
    requires OneEach(s) && Enabled(c, s, e)
    ensures OneEach(Step(c, s, e)) <==> !Doubles(c, s, e)
  {
    HandshakesAfter(c, s, e);
    var t := Step(c, s, e);
    if Doubles(c, s, e) {
      var n :| 0 <= n < |s.handshakes| && IsFor(s, n, StartsFor(c, s, e).value, Running);
      assert t.handshakes[n] == s.handshakes[n] && t.handshakes[|s.handshakes|].host == s.handshakes[n].host;
    } else {
      forall m, n | 0 <= m < n < |t.handshakes| && t.handshakes[m].status.Running? && t.handshakes[n].status.Running?
        ensures t.handshakes[m].host != t.handshakes[n].host
      {
        assert m < |s.handshakes| && s.handshakes[m].status.Running?;
        if n == |s.handshakes| { assert IsFor(s, m, s.handshakes[m].host, Running); }
      }
    }
  }

  ghost predicate AlwaysOneEach(c: Config, s: State, events: seq<Event>)
    decreases |events|
  {
    OneEach(s) && (events == [] || (Enabled(c, s, events[0]) && AlwaysOneEach(c, Step(c, s, events[0]), events[1..])))
  }

  ghost predicate EverDoubles(c: Config, s: State, events: seq<Event>)
    decreases |events|
  {
    events != [] && Enabled(c, s, events[0]) && (Doubles(c, s, events[0]) || EverDoubles(c, Step(c, s, events[0]), events[1..]))
  }

  lemma {:induction false} OneEachIff(c: Config, s: State, events: seq<Event>, t: State)
    requires Reaches(c, s, events, t) && OneEach(s)
    ensures AlwaysOneEach(c, s, events) <==> !EverDoubles(c, s, events)
    decreases |events|
  {
    if events != [] {
      StepKeepsOneEachIff(c, s, events[0]);
      if OneEach(Step(c, s, events[0])) { OneEachIff(c, Step(c, s, events[0]), events[1..], t); }
    }
  }

  /** In every state of a run each host has at most one handshake running exactly if no event of the run
      starts one for a host that has one running. */
  lemma OneHandshakeAHost(c: Config, events: seq<Event>, t: State)
    requires Reaches(c, EMPTY, events, t)
    ensures AlwaysOneEach(c, EMPTY, events) <==> !EverDoubles(c, EMPTY, events)
  {
    OneEachIff(c, EMPTY, events, t);
  }

  // ----- When the in-flight table tells -----

  /** Every running handshake is the one in flight for its host, and no host is both cached and in flight. */
  ghost predicate Tracked(s: State)
  {
    && (forall n :: 0 <= n < |s.handshakes| && s.handshakes[n].status.Running? ==>
         s.handshakes[n].host in s.inFlight && s.inFlight[s.handshakes[n].host] == n)
    && (forall h :: h in s.inFlight ==> h !in s.connByHost)
  }

  /** The event does not cut in on its host: no eviction while a handshake of the host runs, and no late HSDir
      answer for a host that is connected or connecting by now. */
  ghost predicate Calm(s: State, e: Event)
  {
    match e
    case GiveUp(id) => id in s.requests ==> !HasRunning(s, s.requests[id].host)
    case LookupReply(id, d) => d.Some? && id in s.requests ==> !HasRunning(s, s.requests[id].host) && s.requests[id].host !in s.connByHost
    case _ => true
  }

  lemma LookupKeepsTracked(c: Config, s: State, e: Event)
    requires Inv(s) && Tracked(s) && Enabled(c, s, e) && e.LookupReply? && e.descriptor.Some?
    ensures Tracked(Step(c, s, e)) <==> Calm(s, e)
  {
    var t, host := Step(c, s, e), s.requests[e.id].host;
    assert t.handshakes[..|s.handshakes|] == s.handshakes;
    if HasRunning(s, host) {
      var n :| 0 <= n < |s.handshakes| && IsFor(s, n, host, Running);
      assert t.handshakes[n].status.Running? && t.inFlight[host] != n;
    } else if host in s.connByHost {
      assert host in t.inFlight && host in t.connByHost;
    } else {
      assert forall n :: 0 <= n < |s.handshakes| && s.handshakes[n].status.Running? ==> IsFor(s, n, s.handshakes[n].host, Running);
    }
  }

  lemma EvictionKeepsTracked(c: Config, s: State, e: Event)
    requires Inv(s) && Tracked(s) && Enabled(c, s, e) && e.GiveUp?
    ensures Tracked(Step(c, s, e)) <==> Calm(s, e)
  {
    var t, host := Step(c, s, e), s.requests[e.id].host;
    if HasRunning(s, host) {
      var n :| 0 <= n < |s.handshakes| && IsFor(s, n, host, Running);
      assert t.handshakes[n].status.Running? && host !in t.inFlight;
    } else {
      assert forall n :: 0 <= n < |s.handshakes| && s.handshakes[n].status.Running? ==> IsFor(s, n, s.handshakes[n].host, Running);
    }
  }

  lemma FinishKeepsTracked(s: State, n: nat, status: Status)
    requires Inv(s) && Tracked(s) && n < |s.handshakes| && s.handshakes[n].status.Running? && !status.Running?
    ensures Tracked(Finish(s, n, status)) && s.handshakes[n].host !in s.connByHost
  {
  }

  lemma RequestKeepsTracked(c: Config, s: State, host: Host, id: nat)
    requires Inv(s) && Tracked(s)
    ensures Tracked(EnsureConn(c, s, host, id).0)
  {
  }

  /** Exactly the calm events keep handshakes tracked. */
  lemma CalmKeepsTracked(c: Config, s: State, e: Event)
    requires Inv(s) && Tracked(s) && Enabled(c, s, e)
    ensures Tracked(Step(c, s, e)) <==> Calm(s, e)
    ensures Calm(s, e) ==> !Overwrites(s, e)
  {
    match e
    case Request(host, id) => RequestKeepsTracked(c, s, host, id);
    case LookupReply(_, d) => if d.Some? { LookupKeepsTracked(c, s, e); }
    case HandshakeOk(n) => FinishKeepsTracked(s, n, Opened);
    case HandshakeFailed(n) => FinishKeepsTracked(s, n, Failed);
    case Done(_) =>
    case GiveUp(_) => EvictionKeepsTracked(c, s, e);
    case Cleanup =>
  }

  ghost predicate AllCalm(c: Config, s: State, events: seq<Event>)
    decreases |events|
  {
    events == [] || (Enabled(c, s, events[0]) && Calm(s, events[0]) && AllCalm(c, Step(c, s, events[0]), events[1..]))
  }

  lemma {:induction false} CalmRun(c: Config, s: State, events: seq<Event>, t: State)
    requires Inv(s) && Tracked(s) && Reaches(c, s, events, t) && AllCalm(c, s, events)
    ensures Tracked(t) && !EverOverwrites(c, s, events)
    decreases |events|
  {
    if events != [] {
      StepKeepsInv(c, s, events[0]);
      CalmKeepsTracked(c, s, events[0]);
      CalmRun(c, Step(c, s, events[0]), events[1..], t);
    }
  }

  lemma CalmNeverDoubles(c: Config, s: State, e: Event)
    requires Tracked(s) && Enabled(c, s, e) && Calm(s, e)
    ensures !Doubles(c, s, e)
  {
  }

  lemma {:induction false} CalmRunNeverDoubles(c: Config, s: State, events: seq<Event>, t: State)
    requires Inv(s) && Tracked(s) && Reaches(c, s, events, t) && AllCalm(c, s, events)
    ensures !EverDoubles(c, s, events)
    decreases |events|
  {
    if events != [] {
      StepKeepsInv(c, s, events[0]);
      CalmKeepsTracked(c, s, events[0]);
      CalmNeverDoubles(c, s, events[0]);
      CalmRunNeverDoubles(c, Step(c, s, events[0]), events[1..], t);
    }
  }

  /** In a calm run each host has at most one handshake running at any time, and every connection ever opened
      is either the cached one of its host or closed. */
  lemma CalmIsEnough(c: Config, events: seq<Event>, t: State)
    requires Reaches(c, EMPTY, events, t) && AllCalm(c, EMPTY, events)
    ensures AlwaysOneEach(c, EMPTY, events)
    ensures forall n :: !Lost(t, n)
  {
    CalmRunNeverDoubles(c, EMPTY, events, t);
    OneHandshakeAHost(c, events, t);
    CalmRun(c, EMPTY, events, t);
    NothingLostIff(c, EMPTY, events, t);
  }

  /** No request gives up while a handshake of its host runs. */
  ghost predicate NoEvictionMidHandshake(c: Config, s: State, events: seq<Event>)
    decreases |events|
  {
    events == [] ||
    var e := events[0];
    && Enabled(c, s, e) && (e.GiveUp? ==> !HasRunning(s, s.requests[e.id].host))
    && NoEvictionMidHandshake(c, Step(c, s, e), events[1..])
  }

  ghost predicate NoLookups(s: State) { forall id :: id in s.requests ==> !s.requests[id].Looking? }

  lemma LocalStep(c: Config, s: State, e: Event)
    requires !c.hsdir && NoLookups(s) && Enabled(c, s, e)
    ensures NoLookups(Step(c, s, e)) && !e.LookupReply?
  {
  }

  /** With local descriptors only, a run is calm exactly if it evicts no host in the middle of a handshake. */
  lemma {:induction false} LocalRunCalmIff(c: Config, s: State, events: seq<Event>)
    requires !c.hsdir && NoLookups(s)
    ensures AllCalm(c, s, events) <==> NoEvictionMidHandshake(c, s, events)
    decreases |events|
  {
    if events != [] && Enabled(c, s, events[0]) {
      LocalStep(c, s, events[0]);
      LocalRunCalmIff(c, Step(c, s, events[0]), events[1..]);
    }
  }

  lemma {:induction false} ReachesSnoc(c: Config, s: State, events: seq<Event>, t: State, e: Event)
    requires Reaches(c, s, events, t) && Enabled(c, t, e)
    ensures Reaches(c, s, events + [e], Step(c, t, e))
    decreases |events|
  {
    if events == [] {
      assert [] + [e] == [e] && [e][1..] == [];
    } else {
      assert (events + [e])[1..] == events[1..] + [e];
      ReachesSnoc(c, Step(c, s, events[0]), events[1..], t, e);
    }
  }

  lemma Then(c: Config, before: seq<Event>, s: State, e: Event) returns (events: seq<Event>, t: State)
    requires Reaches(c, EMPTY, before, s) && Enabled(c, s, e)
    ensures events == before + [e] && t == Step(c, s, e) && Reaches(c, EMPTY, events, t)
  {
    events, t := before + [e], Step(c, s, e);
    ReachesSnoc(c, EMPTY, before, s, e);
  }

  /** Two requests share a connection and the first gives up on it. */
  lemma SharedConnection(c: Config, host: Host) returns (events: seq<Event>, t: State)
    requires host in c.index
    ensures |events| == 4 && Reaches(c, EMPTY, events, t)
    ensures t == State(map[], map[], [Handshake(host, c.index[host], Opened)], {0}, map[1 := Fetching(host)])
  {
    var d := c.index[host];
    events, t := Then(c, [], EMPTY, Request(host, 0));
    assert t == State(map[], map[host := 0], [Handshake(host, d, Running)], {}, map[0 := Waiting(host, 0)]);
    events, t := Then(c, events, t, HandshakeOk(0));
    assert t == State(map[host := 0], map[], [Handshake(host, d, Opened)], {}, map[0 := Fetching(host)]);
    events, t := Then(c, events, t, Request(host, 1));
    assert t == State(map[host := 0], map[], [Handshake(host, d, Opened)], {}, map[0 := Fetching(host), 1 := Fetching(host)]);
    events, t := Then(c, events, t, GiveUp(0));
    assert t.requests == map[1 := Fetching(host)] && t.connByHost == map[] && t.inFlight == map[];
  }

  /** Then the second gives up while the handshake of a third request runs, and a fourth request starts one more. */
  lemma EvictedMidHandshake(c: Config, host: Host) returns (events: seq<Event>, t: State)
    requires host in c.index
    ensures |events| == 7 && Reaches(c, EMPTY, events, t)
    ensures var d := c.index[host];
      t == State(map[], map[host := 2], [Handshake(host, d, Opened), Handshake(host, d, Running), Handshake(host, d, Running)], {0},
                 map[2 := Waiting(host, 1), 3 := Waiting(host, 2)])
  {
    var d := c.index[host];
    var o, r := Handshake(host, d, Opened), Handshake(host, d, Running);
    events, t := SharedConnection(c, host);
    events, t := Then(c, events, t, Request(host, 2));
    assert t == State(map[], map[host := 1], [o, r], {0}, map[1 := Fetching(host), 2 := Waiting(host, 1)]);
    events, t := Then(c, events, t, GiveUp(1));
    assert t.requests == map[2 := Waiting(host, 1)] && t.connByHost == map[] && t.inFlight == map[];
    events, t := Then(c, events, t, Request(host, 3));
    assert t.handshakes == [o, r, r];
  }

  /** A run in which two fetches over one connection fail one after the other: the second failure evicts the
      host in the middle of its new handshake, and when all handshakes have finished one connection is neither
      cached nor closed. */
  lemma EvictionMidHandshakeLoses(c: Config, host: Host) returns (events: seq<Event>, t: State)
    requires host in c.index
    ensures |events| == 9 && Reaches(c, EMPTY, events, t)
    ensures Lost(t, 1) && EverDoubles(c, EMPTY, events) && EverOverwrites(c, EMPTY, events)
  {
    var h := Handshake(host, c.index[host], Opened);
    events, t := EvictedMidHandshake(c, host);
    var doubled := t;
    assert t.handshakes[1].status.Running? && t.handshakes[2].status.Running? && t.handshakes[1].host == t.handshakes[2].host;
    var before := events;
    events, t := Then(c, events, t, HandshakeOk(1));
    assert t.connByHost == map[host := 1] && t.handshakes[1] == h;
    events, t := Then(c, events, t, HandshakeOk(2));
    assert t.connByHost == map[host := 2] && t.handshakes[1] == h;
    assert Lost(t, 1);
    NothingLostIff(c, EMPTY, events, t);
    assert events == before + [HandshakeOk(1), HandshakeOk(2)];
    DoubledOnTheWay(c, EMPTY, before, doubled, [HandshakeOk(1), HandshakeOk(2)]);
  }

  /** A state with two handshakes for a host is reached only through an event that starts the second. */
  lemma {:induction false} DoubledOnTheWay(c: Config, s: State, before: seq<Event>, t: State, rest: seq<Event>)
    requires OneEach(s) && Reaches(c, s, before, t) && !OneEach(t)
    ensures EverDoubles(c, s, before + rest)
    decreases |before|
  {
    var events := before + rest;
    assert events[0] == before[0] && events[1..] == before[1..] + rest;
    StepKeepsOneEachIff(c, s, before[0]);
    if OneEach(Step(c, s, before[0])) { DoubledOnTheWay(c, Step(c, s, before[0]), before[1..], t, rest); }
  }

  /** Two requests whose HSDir lookups overlap start two handshakes for one host. */
  lemma OverlappingLookupsRace(c: Config, host: Host, d: Descriptor) returns (events: seq<Event>, t: State)
    requires c.hsdir && host !in c.index
    ensures |events| == 4 && Reaches(c, EMPTY, events, t) && !OneEach(t)
    ensures t.handshakes == [Handshake(host, d, Running), Handshake(host, d, Running)] && t.inFlight == map[host := 1]
  {
    events, t := Then(c, [], EMPTY, Request(host, 0));
    events, t := Then(c, events, t, Request(host, 1));
    assert t.requests == map[0 := Looking(host), 1 := Looking(host)];
    events, t := Then(c, events, t, LookupReply(0, Some(d)));
    assert t.requests[1] == Looking(host) && t.handshakes == [Handshake(host, d, Running)];
    events, t := Then(c, events, t, LookupReply(1, Some(d)));
    assert t.handshakes[0] == t.handshakes[1] == Handshake(host, d, Running);
  }

  // ----- Who hears what -----

  /** Whoever waits for a handshake hears how it ended: with a connection it fetches, without one it fails. Nobody
      else hears anything. */
  lemma WaitersHear(c: Config, s: State, e: Event, id: nat)
    requires Enabled(c, s, e) && (e.HandshakeOk? || e.HandshakeFailed?) && id in s.requests
    ensures var t := Step(c, s, e);
      && t.requests.Keys == s.requests.Keys && t.handshakes[e.n].status == (if e.HandshakeOk? then Opened else Failed)
      && t.requests[id] == if s.requests[id].Waiting? && s.requests[id].n == e.n
                           then (if e.HandshakeOk? then Fetching(s.requests[id].host) else Failing(s.requests[id].host)) else s.requests[id]
  {
  }

  /** A request that is done or gives up is gone, and no other one. */
  lemma RequestsLeave(c: Config, s: State, e: Event)
    requires Enabled(c, s, e) && (e.Done? || e.GiveUp?)
    ensures Step(c, s, e).requests.Keys == s.requests.Keys - {e.id}
    ensures forall id :: id in s.requests && id != e.id ==> Step(c, s, e).requests[id] == s.requests[id]
  {
  }

  /** After a cleanup nothing is cached, and exactly what was cached has been closed. */
  lemma CleanupCloses(c: Config, s: State, n: nat)
    ensures var t := Step(c, s, Cleanup);
      && t == s.(closed := t.closed, connByHost := map[])
      && (n in t.closed <==> n in s.closed || exists host :: host in s.connByHost && s.connByHost[host] == n)
  {
  }

  /** No request waits for a handshake that has finished, or for one of another host. */
  ghost predicate WaitsRightly(s: State)
  {
    forall id :: id in s.requests && s.requests[id].Waiting? ==> IsFor(s, s.requests[id].n, s.requests[id].host, Running)
  }

  lemma StartWaitsRightly(s: State, host: Host, d: Descriptor, id: nat)
    requires WaitsRightly(s)
    ensures WaitsRightly(Start(s, host, d, id))
  {
  }

  lemma FinishWaitsRightly(s: State, n: nat, status: Status)
    requires WaitsRightly(s) && n < |s.handshakes|
    ensures WaitsRightly(Finish(s, n, status))
  {
  }

  lemma StepWaitsRightly(c: Config, s: State, e: Event)
    requires Inv(s) && WaitsRightly(s) && Enabled(c, s, e)
    ensures WaitsRightly(Step(c, s, e))
  {
    match e
    case Request(host, id) => if host in c.index { StartWaitsRightly(s, host, c.index[host], id); }
    case LookupReply(id, d) => if d.Some? { StartWaitsRightly(s, s.requests[id].host, d.value, id); }
    case HandshakeOk(n) => FinishWaitsRightly(s, n, Opened);
    case HandshakeFailed(n) => FinishWaitsRightly(s, n, Failed);
    case Done(_) =>
    case GiveUp(_) =>
    case Cleanup =>
  }

  /** In every run, whoever still waits does so for a running handshake of the host it asked for. */
  lemma {:induction false} WaitersWaitRightly(c: Config, s: State, events: seq<Event>, t: State)
    requires Inv(s) && WaitsRightly(s) && Reaches(c, s, events, t)
    ensures WaitsRightly(t)
    decreases |events|
  {
    if events != [] {
      StepKeepsInv(c, s, events[0]);
      StepWaitsRightly(c, s, events[0]);
      WaitersWaitRightly(c, Step(c, s, events[0]), events[1..], t);
    }
  }

  // ----- The stateful cache -----

  class ConnCache {
    const config: Config
    var connByHost: map<Host, nat>
    var inFlight: map<Host, nat>
    var handshakes: seq<Handshake>
    var closed: set<nat>
    var requests: map<nat, Phase>

    function View(): State
      reads this
    {
      State(connByHost, inFlight, handshakes, closed, requests)
    }

    constructor (config: Config)
      ensures this.config == config && View() == EMPTY
    {
      this.config := config;
      connByHost, inFlight, handshakes, closed, requests := map[], map[], [], {}, map[];
    }

    method EnsureConnFor(host: Host, id: nat) returns (a: Answer)
      modifies this
      ensures (View(), a) == EnsureConn(config, old(View()), host, id)
    {
      if host in connByHost {
        requests := requests[id := Fetching(host)];
        return Cached(connByHost[host]);
      }
      if host in inFlight {
        requests := requests[id := Waiting(host, inFlight[host])];
        return Joined(inFlight[host]);
      }
      if host in config.index {
        var n := Open(host, config.index[host], id);
        return Started(n);
      }
      if !config.hsdir {
        requests := requests[id := Failing(host)];
        return NoDescriptor;
      }
      requests := requests[id := Looking(host)];
      a := LookingUp;
    }

    method Open(host: Host, d: Descriptor, id: nat) returns (n: nat)
      modifies this
      ensures View() == Start(old(View()), host, d, id) && n == |old(handshakes)|
    {
      n := |handshakes|;
      handshakes := handshakes + [Handshake(host, d, Running)];
      inFlight := inFlight[host := n];
      requests := requests[id := Waiting(host, n)];
    }

    method OnLookup(id: nat, d: Option<Descriptor>)
      requires id in requests
      modifies this
      ensures View() == AfterLookup(old(View()), id, d)
    {
      var host := requests[id].host;
      if d.Some? {
        var _ := Open(host, d.value, id);
      } else {
        requests := requests[id := Failing(host)];
      }
    }

    method OnHandshake(n: nat, ok: bool)
      requires n < |handshakes|
      modifies this
      ensures View() == Finish(old(View()), n, if ok then Opened else Failed)
    {
      var host := handshakes[n].host;
      if ok { connByHost := connByHost[host := n]; }
      inFlight := inFlight - {host};
      handshakes := handshakes[n := handshakes[n].(status := if ok then Opened else Failed)];
      requests := Settle(requests, n, ok);
    }

    /** A failed fetch evicts its host. */
    method FailedFetch(id: nat)
      requires id in requests
      modifies this
      ensures View() == EvictHost(Leave(old(View()), id), old(requests)[id].host)
    {
      var host := requests[id].host;
      requests := requests - {id};
      EvictConn(host);
    }

    method EvictConn(host: Host)
      modifies this
      ensures View() == EvictHost(old(View()), host)
    {
      if host in connByHost {
        closed := closed + {connByHost[host]};
        connByHost := connByHost - {host};
      } else {
        assert connByHost - {host} == connByHost;
      }
      if host in inFlight { inFlight := inFlight - {host}; } else { assert inFlight - {host} == inFlight; }
    }

    method CloseEverything()
      modifies this
      ensures View() == CloseAll(old(View()))
    {
      var open := connByHost.Keys;
      while open != {}
        invariant open <= connByHost.Keys && connByHost == old(connByHost)
        invariant closed == old(closed) + set h | h in connByHost.Keys - open :: connByHost[h]
        invariant inFlight == old(inFlight) && handshakes == old(handshakes) && requests == old(requests)
      {
        var h :| h in open;
        closed, open := closed + {connByHost[h]}, open - {h};
      }
      connByHost := map[];
    }
  }
}
