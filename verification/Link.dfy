/** The link handshake: LINK_HELLO and LINK_AUTH between a dialer and an acceptor, over a network that may
    drop, replay, reorder and inject cells. Signatures are ideal, nonces are fresh. */
module Link {
  import opened Bytes

  type Nonce = n: seq<byte> | |n| == 32 witness Zeros(32)
  type Key = k: seq<byte> | |k| == 32 witness Zeros(32)

  const VERSION: byte := 0x02
  const LABEL: seq<char> := "anon-layer/v2/link-auth"

  datatype Hello = Hello(version: byte, flags: byte, nonce: Nonce, idPk: Key)

  // ----- Cells -----

  function EncodeHello(h: Hello): (bs: seq<byte>)
    ensures |bs| == 68
  {
    [h.version, h.flags] + Zeros(2) + h.nonce + h.idPk
  }

  function DecodeHello(bs: seq<byte>): Option<Hello>
  {
    if |bs| < 68 then None else Some(Hello(bs[0], bs[1], bs[4..36], bs[36..68]))
  }

  /** A hello is read back from its cell, whatever pads it. */
  lemma HelloRoundTrip(h: Hello, padding: seq<byte>)
    ensures DecodeHello(EncodeHello(h) + padding) == Some(h)
  {
    var bs := EncodeHello(h) + padding;
    assert bs[4..36] == h.nonce && bs[36..68] == h.idPk;
  }

  function LabelBytes(): seq<byte>
  {
    seq(|LABEL|, i requires 0 <= i < |LABEL| => (LABEL[i] as int % 256) as byte)
  }

  function Transcript(nonceSelf: Nonce, idSelf: Key, noncePeer: Nonce, idPeer: Key): seq<byte>
  {
    LabelBytes() + nonceSelf + idSelf + noncePeer + idPeer
  }

  lemma TranscriptDetermines(n1: Nonce, k1: Key, n2: Nonce, k2: Key, m1: Nonce, j1: Key, m2: Nonce, j2: Key)
    ensures Transcript(n1, k1, n2, k2) == Transcript(m1, j1, m2, j2) <==> n1 == m1 && k1 == j1 && n2 == m2 && k2 == j2
  {
    var a, b, l := Transcript(n1, k1, n2, k2), Transcript(m1, j1, m2, j2), |LabelBytes()|;
    assert a[l..l + 32] == n1 && a[l + 32..l + 64] == k1 && a[l + 64..l + 96] == n2 && a[l + 96..] == k2;
    assert b[l..l + 32] == m1 && b[l + 32..l + 64] == j1 && b[l + 64..l + 96] == m2 && b[l + 96..] == j2;
  }

  lemma LabelIs()
    ensures LabelBytes() == [0x61, 0x6E, 0x6F, 0x6E, 0x2D, 0x6C, 0x61, 0x79, 0x65, 0x72, 0x2F, 0x76,
                             0x32, 0x2F, 0x6C, 0x69, 0x6E, 0x6B, 0x2D, 0x61, 0x75, 0x74, 0x68]
  {
  }

  /** What is signed, byte for byte: the label, then one side's nonce and key, then the other's. */
  lemma TranscriptBytes(nonceSelf: Nonce, idSelf: Key, noncePeer: Nonce, idPeer: Key)
    ensures var t := Transcript(nonceSelf, idSelf, noncePeer, idPeer);
      && |t| == 151 && t[..23] == LabelBytes() && t[23..55] == nonceSelf && t[55..87] == idSelf
      && t[87..119] == noncePeer && t[119..] == idPeer
  {
  }

  /** An ideal signature names its signer and the message signed; anything else is junk. */
  datatype Signature = Signature(signer: Key, message: seq<byte>) | Junk

  predicate Verifies(key: Key, message: seq<byte>, s: Signature) { s == Signature(key, message) }

  datatype Cell = HelloCell(hello: Hello) | AuthCell(signature: Signature) | CircuitCell

  // ----- One side -----

  datatype Role = Dialer(expected: Key) | Acceptor

  datatype Session = Session(owner: Key, role: Role, nonce: Nonce, sentHello: bool, peer: Option<Hello>,
                             sentAuth: bool, peerAuthed: bool, closed: bool, circuitCells: nat)

  function Opened(owner: Key, role: Role, nonce: Nonce): Session
  {
    Session(owner, role, nonce, false, None, false, false, false, 0)
  }

  function OwnHello(s: Session): Hello { Hello(VERSION, if s.role.Dialer? then 1 else 0, s.nonce, s.owner) }

  function OwnTranscript(s: Session): seq<byte>
    requires s.peer.Some?
  {
    Transcript(s.nonce, s.owner, s.peer.value.nonce, s.peer.value.idPk)
  }

  /** What the peer must have signed: its own values in the place of "self". */
  function PeerTranscript(s: Session): seq<byte>
    requires s.peer.Some?
  {
    Transcript(s.peer.value.nonce, s.peer.value.idPk, s.nonce, s.owner)
  }

  predicate Established(s: Session) { s.sentAuth && s.peerAuthed && !s.closed }

  predicate MaySendAuth(s: Session) { !s.closed && s.sentHello && s.peer.Some? && !s.sentAuth }

  function OnHello(s: Session, h: Hello): Session
  {
    if s.closed then s
    else if s.peer.Some? || h.version != VERSION || (s.role.Dialer? && h.idPk != s.role.expected) then s.(closed := true)
    else s.(peer := Some(h))
  }

  function OnAuth(s: Session, signature: Signature): Session
  {
    if s.closed then s
    else if s.peer.None? || s.peerAuthed || !Verifies(s.peer.value.idPk, PeerTranscript(s), signature) then s.(closed := true)
    else s.(peerAuthed := true)
  }

  function OnCircuitCell(s: Session): Session
  {
    if s.closed then s
    else if Established(s) then s.(circuitCells := s.circuitCells + 1)
    else s.(closed := true)
  }

  function OnCell(s: Session, c: Cell): Session
  {
    match c
    case HelloCell(h) => OnHello(s, h)
    case AuthCell(signature) => OnAuth(s, signature)
    case CircuitCell => OnCircuitCell(s)
  }

  /** What a side says of itself, byte for byte. */
  lemma HelloBytes(s: Session)
    ensures var bs := EncodeHello(OwnHello(s));
      && bs[0] == 2 && bs[1] == (match s.role case Dialer(_) => 1 case Acceptor => 0) && bs[2..4] == [0, 0]
      && bs[4..36] == s.nonce && bs[36..] == s.owner
  {
  }

  /** The cells an open side must refuse: a second hello, one of another version or from another key than the one
      dialed; a LINK_AUTH before the hello, a second one, or one that is not the peer's signature over the peer's
      nonce and key and then the own ones; and any circuit cell before both LINK_AUTHs. */
  predicate Refused(s: Session, c: Cell)
  {
    match c
    case HelloCell(h) => s.peer.Some? || h.version != 2 || (s.role.Dialer? && h.idPk != s.role.expected)
    case AuthCell(signature) => s.peer.None? || s.peerAuthed ||
      signature != Signature(s.peer.value.idPk, Transcript(s.peer.value.nonce, s.peer.value.idPk, s.nonce, s.owner))
    case CircuitCell => !s.sentAuth || !s.peerAuthed
  }

  /** Exactly those close the link; everything else is taken, and a closed link takes nothing any more. */
  lemma RefusedCloses(s: Session, c: Cell)
    ensures s.closed ==> OnCell(s, c) == s
    ensures !s.closed ==> (OnCell(s, c).closed <==> Refused(s, c))
    ensures !s.closed && !Refused(s, c) ==> OnCell(s, c) == match c
      case HelloCell(h) => s.(peer := Some(h))
      case AuthCell(_) => s.(peerAuthed := true)
      case CircuitCell => s.(circuitCells := s.circuitCells + 1)
  {
  }

  /** Placing the verifier's own values as "self" in the transcript it checks, as one reading of the text
      has it, an honest peer's signature would pass only if both sides had sent the very same hello. */
  lemma VerifierMustSwapRoles(s: Session)
    requires s.peer.Some?
    ensures Verifies(s.peer.value.idPk, OwnTranscript(s), Signature(s.peer.value.idPk, PeerTranscript(s)))
       <==> s.nonce == s.peer.value.nonce && s.owner == s.peer.value.idPk
  {
    var p := s.peer.value;
    TranscriptDetermines(s.nonce, s.owner, p.nonce, p.idPk, p.nonce, p.idPk, s.nonce, s.owner);
  }

  // ----- The world -----

  /** All sessions ever opened, everything signed so far, and the keys the network's owner holds. */
  datatype World = World(sessions: map<nat, Session>, signed: set<(Key, seq<byte>)>, corrupt: set<Key>)

  datatype Event =
    | Open(id: nat, owner: Key, role: Role, nonce: Nonce)
    | SayHello(id: nat)
    | SayAuth(id: nat)
    | Deliver(id: nat, cell: Cell)
    | ForeignSign(key: Key, message: seq<byte>)

  /** The network delivers any hello and any circuit cell, but no signature that nobody made. */
  ghost predicate Enabled(w: World, e: Event)
  {
    match e
    case Open(id, _, _, nonce) => id !in w.sessions && forall i :: i in w.sessions ==> w.sessions[i].nonce != nonce
    case SayHello(id) => id in w.sessions && !w.sessions[id].closed
    case SayAuth(id) => id in w.sessions && MaySendAuth(w.sessions[id])
    case Deliver(id, cell) => id in w.sessions &&
      (cell.AuthCell? && cell.signature.Signature? ==> (cell.signature.signer, cell.signature.message) in w.signed)
    case ForeignSign(key, _) => key in w.corrupt
  }

  ghost function Apply(w: World, e: Event): World
    requires Enabled(w, e)
  {
    match e
    case Open(id, owner, role, nonce) => w.(sessions := w.sessions[id := Opened(owner, role, nonce)])
    case SayHello(id) => w.(sessions := w.sessions[id := w.sessions[id].(sentHello := true)])
    case SayAuth(id) =>
      var s := w.sessions[id];
      w.(sessions := w.sessions[id := s.(sentAuth := true)], signed := w.signed + {(s.owner, OwnTranscript(s))})
    case Deliver(id, cell) => w.(sessions := w.sessions[id := OnCell(w.sessions[id], cell)])
    case ForeignSign(key, message) => w.(signed := w.signed + {(key, message)})
  }

  /** `w` can be reached from an empty world by some run of enabled events. */
  ghost predicate Reaches(start: World, events: seq<Event>, w: World)
    decreases |events|
  {
    if events == [] then start == w
    else Enabled(start, events[0]) && Reaches(Apply(start, events[0]), events[1..], w)
  }

  ghost predicate Empty(w: World) { w.sessions == map[] && w.signed == {} }

  // ----- What every event keeps -----

  /** A session of `key` signed `m`. */
  ghost predicate SignedBy(s: Session, key: Key, m: seq<byte>) { s.owner == key && s.sentAuth && s.peer.Some? && OwnTranscript(s) == m }

  ghost predicate SessionOk(w: World, s: Session)
  {
    && (s.peerAuthed ==> s.peer.Some? && (s.peer.value.idPk, PeerTranscript(s)) in w.signed)
    && (s.peer.Some? ==> s.peer.value.version == VERSION && (s.role.Dialer? ==> s.peer.value.idPk == s.role.expected))
    && (s.sentAuth ==> s.peer.Some? && s.sentHello)
    && (s.circuitCells > 0 ==> s.sentAuth && s.peerAuthed)
  }

  ghost predicate OwnNonces(w: World)
  {
    forall i, j :: i in w.sessions && j in w.sessions && w.sessions[i].nonce == w.sessions[j].nonce ==> i == j
  }

  ghost predicate Inv(w: World)
  {
    && (forall i :: i in w.sessions ==> SessionOk(w, w.sessions[i]))
    && OwnNonces(w)
    && (forall k, m :: (k, m) in w.signed && k !in w.corrupt ==> exists i :: i in w.sessions && SignedBy(w.sessions[i], k, m))
  }

  lemma SignerStays(w: World, e: Event, i: nat, k: Key, m: seq<byte>)
    requires Enabled(w, e) && i in w.sessions && SignedBy(w.sessions[i], k, m)
    ensures i in Apply(w, e).sessions && SignedBy(Apply(w, e).sessions[i], k, m)
  {
  }

  lemma SignersStay(w: World, v: World, e: Event)
    requires Inv(w) && Enabled(w, e) && v == Apply(w, e)
    ensures forall k, m :: (k, m) in v.signed && k !in v.corrupt ==> exists i :: i in v.sessions && SignedBy(v.sessions[i], k, m)
  {
    forall k, m | (k, m) in v.signed && k !in v.corrupt ensures exists i :: i in v.sessions && SignedBy(v.sessions[i], k, m) {
      if (k, m) in w.signed {
        var i :| i in w.sessions && SignedBy(w.sessions[i], k, m);
        SignerStays(w, e, i, k, m);
      } else {
        assert e.SayAuth? && SignedBy(v.sessions[e.id], k, m);
      }
    }
  }

  lemma SessionsStayOk(w: World, v: World, e: Event)
    requires (forall i :: i in w.sessions ==> SessionOk(w, w.sessions[i])) && Enabled(w, e) && v == Apply(w, e)
    ensures forall i :: i in v.sessions ==> SessionOk(v, v.sessions[i])
  {
    forall i | i in v.sessions ensures SessionOk(v, v.sessions[i]) {
      if i in w.sessions { assert SessionOk(w, w.sessions[i]); }
    }
  }

  lemma NoncesKept(w: World, v: World, e: Event)
    requires Enabled(w, e) && v == Apply(w, e) && !e.Open?
    ensures v.sessions.Keys == w.sessions.Keys && forall i :: i in w.sessions ==> v.sessions[i].nonce == w.sessions[i].nonce
  {
  }

  lemma NoncesStayOwn(w: World, v: World, e: Event)
    requires OwnNonces(w) && Enabled(w, e) && v == Apply(w, e)
    ensures OwnNonces(v)
  {
    if e.Open? {
      forall i, j | i in v.sessions && j in v.sessions && v.sessions[i].nonce == v.sessions[j].nonce ensures i == j {
        assert i != e.id ==> v.sessions[i] == w.sessions[i];
        assert j != e.id ==> v.sessions[j] == w.sessions[j];
      }
    } else {
      NoncesKept(w, v, e);
    }
  }

  lemma EventKeepsInv(w: World, e: Event)
    requires Inv(w) && Enabled(w, e)
    ensures Inv(Apply(w, e)) && Apply(w, e).corrupt == w.corrupt
  {
    SignersStay(w, Apply(w, e), e);
    SessionsStayOk(w, Apply(w, e), e);
    NoncesStayOwn(w, Apply(w, e), e);
  }

  lemma {:induction false} ReachableInv(start: World, events: seq<Event>, w: World)
    requires Inv(start) && Reaches(start, events, w)
    ensures Inv(w) && w.corrupt == start.corrupt
    decreases |events|
  {
    if events != [] {
      EventKeepsInv(start, events[0]);
      ReachableInv(Apply(start, events[0]), events[1..], w);
    }
  }

  // ----- Results -----

  /** Session `a` of the peer answers session `d`: each holds the other's nonce and key. */
  ghost predicate Matching(d: Session, a: Session)
  {
    && d.peer.Some? && a.peer.Some? && a.sentAuth
    && a.owner == d.peer.value.idPk && a.nonce == d.peer.value.nonce
    && a.peer.value.idPk == d.owner && a.peer.value.nonce == d.nonce
  }

  /** In every reachable world, whoever completed verification of an honest key, dialer or acceptor, has a
      matching session of that key's owner, exactly one, and no other session is matched by that one. It is
      another session exactly if the peer's nonce is not the own one, and of the peer's hello everything but
      the flags is what that session says of itself. */
  lemma PeerIsAuthentic(start: World, events: seq<Event>, w: World, d: nat) returns (a: nat)
    requires Empty(start) && Reaches(start, events, w)
    requires d in w.sessions && w.sessions[d].peerAuthed
    requires w.sessions[d].peer.Some? && w.sessions[d].peer.value.idPk !in start.corrupt
    ensures a in w.sessions && Matching(w.sessions[d], w.sessions[a])
    ensures forall i :: i in w.sessions && Matching(w.sessions[d], w.sessions[i]) ==> i == a
    ensures forall i :: i in w.sessions && Matching(w.sessions[i], w.sessions[a]) ==> i == d
    ensures a != d <==> w.sessions[d].peer.value.nonce != w.sessions[d].nonce
    ensures var h := w.sessions[d].peer.value; h == OwnHello(w.sessions[a]).(flags := h.flags)
  {
    ReachableInv(start, events, w);
    var s := w.sessions[d];
    assert SessionOk(w, s);
    var k, m := s.peer.value.idPk, PeerTranscript(s);
    assert (k, m) in w.signed;
    a :| a in w.sessions && SignedBy(w.sessions[a], k, m);
    var t := w.sessions[a];
    TranscriptDetermines(t.nonce, t.owner, t.peer.value.nonce, t.peer.value.idPk, s.peer.value.nonce, k, s.nonce, s.owner);
  }

  /** A dialer that completes has authenticated the key it was told to dial: if that key is honest, its owner
      signed a transcript holding the dialer's own nonce and key. */
  lemma DialerReachesExpected(start: World, events: seq<Event>, w: World, d: nat) returns (a: nat)
    requires Empty(start) && Reaches(start, events, w)
    requires d in w.sessions && Established(w.sessions[d]) && w.sessions[d].role.Dialer?
    requires w.sessions[d].role.expected !in start.corrupt
    ensures a in w.sessions && Matching(w.sessions[d], w.sessions[a]) && w.sessions[a].owner == w.sessions[d].role.expected
    ensures (w.sessions[a].owner, Transcript(w.sessions[a].nonce, w.sessions[a].owner, w.sessions[d].nonce, w.sessions[d].owner)) in w.signed
  {
    ReachableInv(start, events, w);
    assert SessionOk(w, w.sessions[d]);
    a := PeerIsAuthentic(start, events, w, d);
  }

  /** No side has taken a circuit cell before both LINK_AUTHs, its own sent and its peer's verified, and
      none authenticates before it heard a hello of the right version. */
  lemma NoEarlyCircuitCell(start: World, events: seq<Event>, w: World, i: nat)
    requires Empty(start) && Reaches(start, events, w) && i in w.sessions
    ensures w.sessions[i].circuitCells > 0 ==> w.sessions[i].sentAuth && w.sessions[i].peerAuthed
    ensures w.sessions[i].sentAuth || w.sessions[i].peerAuthed ==> w.sessions[i].peer.Some? && w.sessions[i].peer.value.version == VERSION
  {
    ReachableInv(start, events, w);
    assert SessionOk(w, w.sessions[i]);
  }

  // ----- What the handshake leaves open -----

  const NOBODY := World(map[], {}, {})

  lemma {:induction false} ReachesSnoc(start: World, events: seq<Event>, w: World, e: Event)
    requires Reaches(start, events, w) && Enabled(w, e)
    ensures Reaches(start, events + [e], Apply(w, e))
    decreases |events|
  {
    if events == [] {
      assert [e][1..] == [] && [] + [e] == [e];
    } else {
      assert (events + [e])[1..] == events[1..] + [e];
      ReachesSnoc(Apply(start, events[0]), events[1..], w, e);
    }
  }

  /** Sessions `i` and `j` have completed, and each is the other's match. */
  ghost predicate Linked(w: World, i: nat, j: nat)
  {
    && i in w.sessions && j in w.sessions && Established(w.sessions[i]) && Established(w.sessions[j])
    && Matching(w.sessions[i], w.sessions[j]) && Matching(w.sessions[j], w.sessions[i])
  }

  ghost predicate Plays(w: World, i: nat, owner: Key, role: Role)
  {
    i in w.sessions && w.sessions[i].owner == owner && w.sessions[i].role == role
  }

  predicate Meant(role: Role, peer: Key) { role.Dialer? ==> role.expected == peer }

  /** With all keys honest, some run links two sessions of these owners in these roles. */
  ghost predicate CanLink(k: Key, r: Role, k': Key, r': Role)
  {
    exists events, w, i, j :: Reaches(NOBODY, events, w) && i != j && Plays(w, i, k, r) && Plays(w, j, k', r') && Linked(w, i, j)
  }

  /** With all keys honest, some run links a session to itself. */
  ghost predicate CanReflect(k: Key, r: Role)
  {
    exists events, w, i :: Reaches(NOBODY, events, w) && Plays(w, i, k, r) && Linked(w, i, i)
  }

  lemma LinkedAsMeant(events: seq<Event>, w: World, i: nat, j: nat)
    requires Reaches(NOBODY, events, w) && Linked(w, i, j)
    ensures Meant(w.sessions[i].role, w.sessions[j].owner)
  {
    ReachableInv(NOBODY, events, w);
    assert SessionOk(w, w.sessions[i]);
  }

  /** The network hands a side its own two cells. */
  lemma Reflect(k: Key, r: Role, n: Nonce) returns (events: seq<Event>, w: World)
    requires Meant(r, k)
    ensures Reaches(NOBODY, events, w) && Plays(w, 0, k, r) && Linked(w, 0, 0) && |events| == 5
  {
    events, w := Do([], NOBODY, Open(0, k, r, n));
    events, w := Do(events, w, SayHello(0));
    var s := Opened(k, r, n).(sentHello := true);
    assert w == World(map[0 := s], {}, {});
    events, w := Do(events, w, Deliver(0, HelloCell(OwnHello(s))));
    s := s.(peer := Some(OwnHello(s)));
    assert w == World(map[0 := s], {}, {});
    events, w := Do(events, w, SayAuth(0));
    assert w == World(map[0 := s.(sentAuth := true)], {(k, OwnTranscript(s))}, {});
    events, w := Do(events, w, Deliver(0, AuthCell(Signature(k, OwnTranscript(s)))));
    assert w.sessions[0] == s.(sentAuth := true, peerAuthed := true);
  }

  lemma Do(before: seq<Event>, v: World, e: Event) returns (events: seq<Event>, w: World)
    requires Reaches(NOBODY, before, v) && Enabled(v, e)
    ensures events == before + [e] && w == Apply(v, e) && Reaches(NOBODY, events, w)
  {
    events, w := before + [e], Apply(v, e);
    ReachesSnoc(NOBODY, before, v, e);
  }

  lemma Speak(k: Key, r: Role, n: Nonce, k': Key, r': Role, n': Nonce) returns (events: seq<Event>, w: World)
    requires n != n'
    ensures w == World(map[0 := Opened(k, r, n).(sentHello := true), 1 := Opened(k', r', n').(sentHello := true)], {}, {})
    ensures Reaches(NOBODY, events, w) && |events| == 4
  {
    events, w := Do([], NOBODY, Open(0, k, r, n));
    assert w == World(map[0 := Opened(k, r, n)], {}, {});
    events, w := Do(events, w, Open(1, k', r', n'));
    events, w := Do(events, w, SayHello(0));
    events, w := Do(events, w, SayHello(1));
  }

  lemma Greet(k: Key, r: Role, n: Nonce, k': Key, r': Role, n': Nonce) returns (events: seq<Event>, w: World)
    requires n != n' && Meant(r, k') && Meant(r', k)
    ensures var s, t := Opened(k, r, n).(sentHello := true), Opened(k', r', n').(sentHello := true);
      w == World(map[0 := s.(peer := Some(OwnHello(t))), 1 := t.(peer := Some(OwnHello(s)))], {}, {})
    ensures Reaches(NOBODY, events, w) && |events| == 6
  {
    events, w := Speak(k, r, n, k', r', n');
    var s, t := w.sessions[0], w.sessions[1];
    events, w := Do(events, w, Deliver(0, HelloCell(OwnHello(t))));
    events, w := Do(events, w, Deliver(1, HelloCell(OwnHello(s))));
  }

  /** Both sides follow the protocol, whatever their roles. */
  lemma Meet(k: Key, r: Role, n: Nonce, k': Key, r': Role, n': Nonce) returns (events: seq<Event>, w: World)
    requires n != n' && Meant(r, k') && Meant(r', k)
    ensures Reaches(NOBODY, events, w) && Plays(w, 0, k, r) && Plays(w, 1, k', r') && Linked(w, 0, 1) && |events| == 10
  {
    events, w := Greet(k, r, n, k', r', n');
    var s, t := w.sessions[0], w.sessions[1];
    events, w := Do(events, w, SayAuth(0));
    events, w := Do(events, w, SayAuth(1));
    assert w == World(map[0 := s.(sentAuth := true), 1 := t.(sentAuth := true)], {(k, OwnTranscript(s)), (k', OwnTranscript(t))}, {});
    events, w := Do(events, w, Deliver(0, AuthCell(Signature(k', OwnTranscript(t)))));
    events, w := Do(events, w, Deliver(1, AuthCell(Signature(k, OwnTranscript(s)))));
    assert w.sessions[0] == s.(sentAuth := true, peerAuthed := true) && w.sessions[1] == t.(sentAuth := true, peerAuthed := true);
  }

  /** Roles are not authenticated: two sides can complete with each other exactly if each that was told whom
      to dial was told the other's key. Two acceptors can, and so can two dialers of each other. */
  lemma RolesAreOpen(k: Key, r: Role, k': Key, r': Role)
    ensures CanLink(k, r, k', r') <==> Meant(r, k') && Meant(r', k)
  {
    if Meant(r, k') && Meant(r', k) {
      var n: Nonce, n': Nonce := Zeros(32), Zeros(31) + [1];
      assert n[31] != n'[31];
      var events, w := Meet(k, r, n, k', r', n');
    }
    if CanLink(k, r, k', r') {
      var events, w, i, j :| Reaches(NOBODY, events, w) && i != j && Plays(w, i, k, r) && Plays(w, j, k', r') && Linked(w, i, j);
      LinkedAsMeant(events, w, i, j);
      LinkedAsMeant(events, w, j, i);
    }
  }

  /** A side that is handed its own cells completes with itself, exactly unless it dials another's key. */
  lemma ReflectionIff(k: Key, r: Role)
    ensures CanReflect(k, r) <==> Meant(r, k)
  {
    if Meant(r, k) { var events, w := Reflect(k, r, Zeros(32)); }
    if CanReflect(k, r) {
      var events, w, i :| Reaches(NOBODY, events, w) && Plays(w, i, k, r) && Linked(w, i, i);
      LinkedAsMeant(events, w, i, i);
    }
  }

  /** Where the peer's flags arrive as they were sent, they tell whether one side dials and one accepts. */
  lemma FlagsTellRoles(start: World, events: seq<Event>, w: World, d: nat, a: nat)
    requires Empty(start) && Reaches(start, events, w)
    requires d in w.sessions && a in w.sessions && Matching(w.sessions[d], w.sessions[a])
    requires w.sessions[d].peer.value.flags == OwnHello(w.sessions[a]).flags
    ensures w.sessions[d].peer.value == OwnHello(w.sessions[a])
    ensures w.sessions[d].role.Dialer? != w.sessions[a].role.Dialer? <==> w.sessions[d].peer.value.flags != OwnHello(w.sessions[d]).flags
  {
    ReachableInv(start, events, w);
    assert SessionOk(w, w.sessions[d]);
  }

  /** A link that was closed stays closed, in every run, with all it had. */
  lemma {:induction false} ClosedForGood(start: World, events: seq<Event>, w: World, i: nat)
    requires Reaches(start, events, w) && i in start.sessions && start.sessions[i].closed
    ensures i in w.sessions && w.sessions[i] == start.sessions[i]
    decreases |events|
  {
    if events != [] {
      ClosedForGood(Apply(start, events[0]), events[1..], w, i);
    }
  }

  /** A network that delivers faithfully lets an honest pair complete, whichever side speaks first. */
  lemma HonestPairCompletes(d: Key, a: Key, nd: Nonce, na: Nonce, acceptorFirst: bool)
    ensures var s0, t0 := Opened(d, Dialer(a), nd).(sentHello := true), Opened(a, Acceptor, na).(sentHello := true);
      var s1, t1 := OnHello(s0, OwnHello(t0)), OnHello(t0, OwnHello(s0));
      && MaySendAuth(s1) && MaySendAuth(t1)
      && var s2, t2 := s1.(sentAuth := true), t1.(sentAuth := true);
      && var sigD, sigA := Signature(d, OwnTranscript(s1)), Signature(a, OwnTranscript(t1));
      && (if acceptorFirst then Established(OnAuth(s2, sigA)) && Established(OnAuth(t1, sigD).(sentAuth := true))
          else Established(OnAuth(s1, sigA).(sentAuth := true)) && Established(OnAuth(t2, sigD)))
  {
  }

  // ----- The stateful side -----

  class Endpoint {
    const owner: Key
    const role: Role
    const nonce: Nonce
    var sentHello: bool
    var peer: Option<Hello>
    var sentAuth: bool
    var peerAuthed: bool
    var closed: bool
    var circuitCells: nat

    constructor (owner: Key, role: Role, nonce: Nonce)
      ensures View() == Opened(owner, role, nonce)
    {
      this.owner, this.role, this.nonce := owner, role, nonce;
      sentHello, peer, sentAuth, peerAuthed, closed, circuitCells := false, None, false, false, false, 0;
    }

    function View(): Session
      reads this
    {
      Session(owner, role, nonce, sentHello, peer, sentAuth, peerAuthed, closed, circuitCells)
    }

    method SayHello() returns (h: Option<Hello>)
      modifies this
      ensures if old(closed) then h == None && View() == old(View())
              else h == Some(OwnHello(old(View()))) && View() == old(View()).(sentHello := true)
    {
      if closed { return None; }
      sentHello := true;
      h := Some(Hello(VERSION, if role.Dialer? then 1 else 0, nonce, owner));
    }

    method SayAuth() returns (signature: Option<Signature>)
      modifies this
      ensures if MaySendAuth(old(View()))
              then signature == Some(Signature(owner, OwnTranscript(old(View())))) && View() == old(View()).(sentAuth := true)
              else signature == None && View() == old(View())
    {
      if closed || !sentHello || sentAuth || peer.None? { return None; }
      sentAuth := true;
      signature := Some(Signature(owner, Transcript(nonce, owner, peer.value.nonce, peer.value.idPk)));
    }

    method Receive(c: Cell)
      modifies this
      ensures View() == OnCell(old(View()), c)
    {
      if closed { return; }
      if c.CircuitCell? {
        if sentAuth && peerAuthed { circuitCells := circuitCells + 1; } else { closed := true; }
        return;
      }
      match c {
        case HelloCell(h) =>
          if peer.Some? || h.version != VERSION || (role.Dialer? && h.idPk != role.expected) {
            closed := true;
          } else {
            peer := Some(h);
          }
        case AuthCell(signature) =>
          if peer.None? || peerAuthed {
            closed := true;
          } else {
            var signed := Transcript(peer.value.nonce, peer.value.idPk, nonce, owner);
            if Verifies(peer.value.idPk, signed, signature) { peerAuthed := true; } else { closed := true; }
          }
      }
    }
  }
}
