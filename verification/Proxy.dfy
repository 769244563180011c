/** The rendezvous proxy's single connection: opened on demand, by one handshake at a time, and kept. */
module Proxy {
  import opened Bytes

  datatype Status = Running | Opened | Failed

  /** Attempts so far, the cached connection and the attempt in progress, and which attempt each client of
      the local listener was handed. */
  datatype State = State(attempts: seq<Status>, conn: Option<nat>, opening: Option<nat>, clients: seq<nat>)

  const EMPTY := State([], None, None, [])

  datatype Event = Accept | HandshakeOk(n: nat) | HandshakeFailed(n: nat)

  function EnsureConn(s: State): (State, nat)
  {
    match (s.conn, s.opening)
    case (Some(n), _) => (s, n)
    case (None, Some(n)) => (s, n)
    case (None, None) => (s.(attempts := s.attempts + [Running], opening := Some(|s.attempts|)), |s.attempts|)
  }

  predicate Enabled(s: State, e: Event)
  {
    e.Accept? || (e.n < |s.attempts| && s.attempts[e.n].Running?)
  }

  function Step(s: State, e: Event): State
    requires Enabled(s, e)
  {
    match e
    case Accept => var (s', n) := EnsureConn(s); s'.(clients := s.clients + [n])
    case HandshakeOk(n) => s.(attempts := s.attempts[n := Opened], conn := Some(n), opening := None)
    case HandshakeFailed(n) => s.(attempts := s.attempts[n := Failed], opening := None)
  }

  ghost predicate Reaches(s: State, events: seq<Event>, t: State)
    decreases |events|
  {
    if events == [] then s == t else Enabled(s, events[0]) && Reaches(Step(s, events[0]), events[1..], t)
  }

  /** All attempts but the last have failed. */
  ghost predicate Inv(s: State)
  {
    && (forall n :: 0 <= n < |s.attempts| - 1 ==> s.attempts[n].Failed?)
    && s.conn == (if s.attempts != [] && s.attempts[|s.attempts| - 1].Opened? then Some(|s.attempts| - 1) else None)
    && s.opening == (if s.attempts != [] && s.attempts[|s.attempts| - 1].Running? then Some(|s.attempts| - 1) else None)
    && (forall i :: 0 <= i < |s.clients| ==> s.clients[i] < |s.attempts|)
  }

  lemma {:induction false} ReachableInv(s: State, events: seq<Event>, t: State)
    requires Inv(s) && Reaches(s, events, t)
    ensures Inv(t)
    decreases |events|
  {
    if events != [] { ReachableInv(Step(s, events[0]), events[1..], t); }
  }

  /** In every interleaving at most one handshake runs and at most one ever succeeds, never both, and all
      clients that get a connection get that one. */
  lemma OneConnectionForAll(events: seq<Event>, t: State)
    requires Reaches(EMPTY, events, t)
    ensures forall m, n :: 0 <= m < |t.attempts| && 0 <= n < |t.attempts| && !t.attempts[m].Failed? && !t.attempts[n].Failed? ==> m == n
    ensures forall i :: 0 <= i < |t.clients| ==>
      t.clients[i] < |t.attempts| && (t.attempts[t.clients[i]].Opened? ==> t.conn == Some(t.clients[i]))
    ensures t.conn.Some? ==> EnsureConn(t) == (t, t.conn.value) && forall e :: Enabled(t, e) ==> e.Accept?
  {
    ReachableInv(EMPTY, events, t);
  }

  /** A failed attempt is not held against the service: the next request starts a new one. */
  lemma FailureIsRetried(events: seq<Event>, t: State, n: nat)
    requires Reaches(EMPTY, events, t) && Enabled(t, HandshakeFailed(n))
    ensures var after := Step(t, HandshakeFailed(n)); var (again, m) := EnsureConn(after);
      m == |t.attempts| && again.attempts == t.attempts[n := Failed] + [Running] && again.opening == Some(m)
  {
    ReachableInv(EMPTY, events, t);
  }

  class RendezvousConn {
    var attempts: seq<Status>
    var conn: Option<nat>
    var opening: Option<nat>
    var clients: seq<nat>

    function View(): State
      reads this
    {
      State(attempts, conn, opening, clients)
    }

    constructor ()
      ensures View() == EMPTY
    {
      attempts, conn, opening, clients := [], None, None, [];
    }

    method OnClient() returns (n: nat)
      modifies this
      ensures View() == Step(old(View()), Accept) && n == EnsureConn(old(View())).1
    {
      if conn.Some? {
        n := conn.value;
      } else if opening.Some? {
        n := opening.value;
      } else {
        n := |attempts|;
        attempts, opening := attempts + [Running], Some(n);
      }
      clients := clients + [n];
    }

    method OnHandshake(n: nat, ok: bool)
      requires Enabled(View(), HandshakeOk(n))
      modifies this
      ensures View() == Step(old(View()), if ok then HandshakeOk(n) else HandshakeFailed(n))
    {
      attempts := attempts[n := if ok then Opened else Failed];
      if ok { conn := Some(n); }
      opening := None;
    }
  }
}
