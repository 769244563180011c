/** The v0.1 receive path: checks in order, then the sliding-window replay log. */
module Replay {
  import opened Bytes

  const TIME_WINDOW: nat := 300     // seconds
  const SIZE_BOUND: nat := 8192

  type PacketKey = k: seq<byte> | |k| == 44 witness Zeros(44)   // ephPk and nonce

  datatype Entry = Entry(key: PacketKey, at: nat)

  /** The text gives two readings of the size bound. Under the strict one the most recent 8192 entries are
      never evicted; under the lenient one an entry older than the time window may go before that. */
  datatype Reading = Strict | Lenient

  /** Everything ever accepted, oldest first, and the indices the log still holds. */
  datatype Log = Log(accepted: seq<Entry>, kept: set<nat>)

  const EMPTY := Log([], {})

  predicate MayEvict(l: Log, i: nat, now: nat, r: Reading)
    requires i < |l.accepted|
  {
    now >= l.accepted[i].at + TIME_WINDOW && (r.Lenient? || |l.accepted| - i > SIZE_BOUND)
  }

  ghost predicate Holds(l: Log, key: PacketKey)
  {
    exists i :: i in l.kept && i < |l.accepted| && l.accepted[i].key == key
  }

  datatype Event = Packet(key: PacketKey, now: nat) | Evict(dropped: set<nat>, now: nat)

  /** Eviction is up to the implementation, within what the reading allows. */
  ghost predicate Allowed(l: Log, e: Event, r: Reading)
  {
    e.Evict? ==> forall i :: i in e.dropped ==> i < |l.accepted| && MayEvict(l, i, e.now, r)
  }

  ghost predicate Accepts(l: Log, key: PacketKey) { !Holds(l, key) }

  ghost function Step(l: Log, e: Event): Log
  {
    match e
    case Packet(key, now) =>
      if Accepts(l, key) then Log(l.accepted + [Entry(key, now)], l.kept + {|l.accepted|}) else l
    case Evict(dropped, _) => l.(kept := l.kept - dropped)
  }

  /** A run under a clock that does not go back. */
  ghost predicate Legal(l: Log, clock: nat, events: seq<Event>, r: Reading)
    decreases |events|
  {
    events == [] || (clock <= events[0].now && Allowed(l, events[0], r) && Legal(Step(l, events[0]), events[0].now, events[1..], r))
  }

  ghost function Run(l: Log, events: seq<Event>): Log
    decreases |events|
  {
    if events == [] then l else Run(Step(l, events[0]), events[1..])
  }

  // ----- What every event keeps -----

  /** Entry `j` came late enough after entry `i` for both to carry one key. */
  ghost predicate Apart(l: Log, i: nat, j: nat, r: Reading)
    requires i < j < |l.accepted|
  {
    l.accepted[j].at >= l.accepted[i].at + TIME_WINDOW && (r.Lenient? || j - i > SIZE_BOUND)
  }

  ghost predicate Inv(l: Log, clock: nat, r: Reading)
  {
    && (forall i :: i in l.kept ==> i < |l.accepted|)
    && (forall i :: 0 <= i < |l.accepted| ==> l.accepted[i].at <= clock)
    && (forall i :: 0 <= i < |l.accepted| && i !in l.kept ==> MayEvict(l, i, clock, r))
    && (forall i, j :: 0 <= i < j < |l.accepted| && l.accepted[i].key == l.accepted[j].key ==> Apart(l, i, j, r))
  }

  lemma StepKeepsInv(l: Log, clock: nat, e: Event, r: Reading)
    requires Inv(l, clock, r) && clock <= e.now && Allowed(l, e, r)
    ensures Inv(Step(l, e), e.now, r)
  {
    var l' := Step(l, e);
    if e.Packet? && Accepts(l, e.key) {
      var n := |l.accepted|;
      forall i, j | 0 <= i < j < |l'.accepted| && l'.accepted[i].key == l'.accepted[j].key ensures Apart(l', i, j, r) {
        if j < n {
          assert l.accepted[i].key == l.accepted[j].key ==> Apart(l, i, j, r);
        } else {
          assert i !in l.kept && MayEvict(l, i, clock, r);
        }
      }
      forall i | 0 <= i < |l'.accepted| && i !in l'.kept ensures MayEvict(l', i, e.now, r) {
        assert MayEvict(l, i, clock, r);
      }
    } else {
      forall i | 0 <= i < |l'.accepted| && i !in l'.kept ensures MayEvict(l', i, e.now, r) {
        if i !in l.kept { assert MayEvict(l, i, clock, r); }
      }
      forall i, j | 0 <= i < j < |l'.accepted| && l'.accepted[i].key == l'.accepted[j].key ensures Apart(l', i, j, r) {
        assert Apart(l, i, j, r);
      }
    }
  }

  lemma {:induction false} RunKeepsInv(l: Log, clock: nat, events: seq<Event>, r: Reading) returns (end: nat)
    requires Inv(l, clock, r) && Legal(l, clock, events, r)
    ensures Inv(Run(l, events), end, r)
    decreases |events|
  {
    if events == [] {
      end := clock;
    } else {
      StepKeepsInv(l, clock, events[0], r);
      end := RunKeepsInv(Step(l, events[0]), events[0].now, events[1..], r);
    }
  }

  // ----- Results -----

  /** In every run, under any eviction the reading allows, one key is accepted twice only if 300 seconds lie
      between the two, and (strict reading) at least 8192 other packets were accepted in between. */
  lemma NoReplayInWindow(events: seq<Event>, r: Reading, i: nat, j: nat)
    requires Legal(EMPTY, 0, events, r)
    requires var a := Run(EMPTY, events).accepted; i < j < |a| && a[i].key == a[j].key
    ensures var a := Run(EMPTY, events).accepted; a[j].at >= a[i].at + 300 && (r.Strict? ==> j - i - 1 >= 8192)
  {
    var end := RunKeepsInv(EMPTY, 0, events, r);
    assert Apart(Run(EMPTY, events), i, j, r);
  }

  /** A key never accepted before is always accepted, whatever has been evicted meanwhile. */
  lemma NewKeyAccepted(l: Log, key: PacketKey, now: nat)
    requires forall i :: 0 <= i < |l.accepted| ==> l.accepted[i].key != key
    ensures Step(l, Packet(key, now)).accepted == l.accepted + [Entry(key, now)]
    ensures Holds(Step(l, Packet(key, now)), key)
  {
    var l' := Step(l, Packet(key, now));
    assert |l.accepted| in l'.kept && l'.accepted[|l.accepted|].key == key;
  }

  /** The replay property is lost under the lenient reading: a legal run of three events that accepts one key
      twice with nothing in between. */
  lemma LenientReadingForgets(key: PacketKey)
    ensures var events := [Packet(key, 0), Evict({0}, TIME_WINDOW), Packet(key, TIME_WINDOW)];
      Legal(EMPTY, 0, events, Lenient) && Run(EMPTY, events).accepted == [Entry(key, 0), Entry(key, TIME_WINDOW)]
  {
    var events := [Packet(key, 0), Evict({0}, TIME_WINDOW), Packet(key, TIME_WINDOW)];
    var l1 := Step(EMPTY, events[0]);
    assert l1 == Log([Entry(key, 0)], {0});
    var l2 := Step(l1, events[1]);
    assert l2 == Log([Entry(key, 0)], {});
    assert events[1..] == [events[1], events[2]] && events[1..][1..] == [events[2]] && [events[2]][1..] == [];
    assert Legal(l2, TIME_WINDOW, [events[2]], Lenient);
    assert Legal(l1, 0, events[1..], Lenient);
    assert Run(l1, events[1..]) == Run(l2, [events[2]]) == Run(Step(l2, events[2]), []);
  }

  // ----- The whole receive path -----

  function BucketSize(b: byte): nat { if b == 1 then 256 else if b == 2 then 1024 else if b == 3 then 4096 else 0 }

  /** A node's identity fingerprint, and AEAD decryption of a whole packet under its keys. */
  datatype Node = Node(fingerprint: seq<byte>, open: seq<byte> -> Option<seq<byte>>)

  datatype Result = Dropped | Dispatched(kind: byte, sender: seq<byte>, payload: seq<byte>)

  function KeyOf(packet: seq<byte>): PacketKey
    requires |packet| >= 54
  {
    packet[10..54]
  }

  /** Steps 1 to 4: length, version, bucket, fingerprint prefix. */
  predicate OuterOk(n: Node, packet: seq<byte>)
  {
    && |packet| in {256, 1024, 4096}
    && packet[0] == 1
    && BucketSize(packet[1]) == |packet|
    && |n.fingerprint| >= 8 && packet[2..10] == n.fingerprint[..8]
  }

  /** Steps 5 to 7: decryption, padding, real length. */
  function Inner(n: Node, packet: seq<byte>): Option<Result>
    requires OuterOk(n, packet)
  {
    match n.open(packet)
    case None => None
    case Some(plain) =>
      if |plain| != |packet| - 70 then None else
      var length := FromBigEndian(plain[1..3]);
      if length <= |plain| - 35 && plain[35 + length..] == Zeros(|plain| - 35 - length)
      then Some(Dispatched(plain[0], plain[3..35], plain[35..35 + length])) else None
  }

  ghost predicate SameKey(a: seq<byte>, b: seq<byte>) { |a| >= 54 && |b| >= 54 && KeyOf(a) == KeyOf(b) }

  type Key = k: seq<byte> | |k| == 32 witness Zeros(32)
  type Nonce = n: seq<byte> | |n| == 12 witness Zeros(12)
  type Prefix = p: seq<byte> | |p| == 8 witness Zeros(8)

  /** A packet on the wire: version, bucket, recipient prefix, ephemeral key, nonce, and what is sealed. */
  function Wire(version: byte, bucket: byte, prefix: Prefix, ephPk: Key, nonce: Nonce, sealed: seq<byte>): (packet: seq<byte>)
    ensures |packet| == 54 + |sealed|
  {
    [version, bucket] + prefix + ephPk + nonce + sealed
  }

  /** The sealed text: kind, length of the payload in two bytes, sender, payload, zeros up to `size`. */
  function Plain(kind: byte, sender: Key, payload: seq<byte>, size: nat): (plain: seq<byte>)
    requires |payload| + 35 <= size && |payload| < 0x1_0000
    ensures |plain| == size
  {
    [kind] + BigEndian(|payload|, 2) + sender + payload + Zeros(size - 35 - |payload|)
  }

  lemma WireFields(version: byte, bucket: byte, prefix: Prefix, ephPk: Key, nonce: Nonce, sealed: seq<byte>)
    ensures var p := Wire(version, bucket, prefix, ephPk, nonce, sealed);
      p[0] == version && p[1] == bucket && p[2..10] == prefix && p[10..42] == ephPk && p[42..54] == nonce && p[54..] == sealed
  {
  }

  lemma WireOf(packet: seq<byte>)
    requires |packet| >= 54
    ensures packet == Wire(packet[0], packet[1], packet[2..10], packet[10..42], packet[42..54], packet[54..])
  {
  }

  lemma KeyHalves(packet: seq<byte>)
    requires |packet| >= 54
    ensures KeyOf(packet) == packet[10..42] + packet[42..54]
  {
  }

  lemma Halves(a: seq<byte>, b: seq<byte>, x: seq<byte>, y: seq<byte>)
    requires |a| == |x|
    ensures a + b == x + y <==> a == x && b == y
  {
    assert (a + b)[..|a|] == a && (x + y)[..|x|] == x && (a + b)[|a|..] == b && (x + y)[|x|..] == y;
  }

  /** Two packets have one key exactly if both their ephemeral keys and their nonces are the same, whatever else
      they hold. */
  lemma SameKeyIff(version: byte, bucket: byte, prefix: Prefix, ephPk: Key, nonce: Nonce, sealed: seq<byte>,
                   version': byte, bucket': byte, prefix': Prefix, ephPk': Key, nonce': Nonce, sealed': seq<byte>)
    ensures SameKey(Wire(version, bucket, prefix, ephPk, nonce, sealed), Wire(version', bucket', prefix', ephPk', nonce', sealed'))
       <==> ephPk == ephPk' && nonce == nonce'
  {
    var p, q := Wire(version, bucket, prefix, ephPk, nonce, sealed), Wire(version', bucket', prefix', ephPk', nonce', sealed');
    WireFields(version, bucket, prefix, ephPk, nonce, sealed);
    WireFields(version', bucket', prefix', ephPk', nonce', sealed');
    KeyHalves(p);
    KeyHalves(q);
    Halves(ephPk, nonce, ephPk', nonce');
  }

  /** The packet was put together for the node, in a bucket of its size. */
  predicate BuiltFor(n: Node, packet: seq<byte>, bucket: byte, ephPk: Key, nonce: Nonce, sealed: seq<byte>)
    requires |n.fingerprint| == 32
  {
    && packet == Wire(1, bucket, n.fingerprint[..8], ephPk, nonce, sealed)
    && ((bucket == 1 && |packet| == 256) || (bucket == 2 && |packet| == 1024) || (bucket == 3 && |packet| == 4096))
  }

  /** Steps 1 to 4 let through exactly the packets of version 1 and a known size under the bucket of that size that
      start with the node's own prefix. */
  lemma OuterOkIff(n: Node, packet: seq<byte>)
    requires |n.fingerprint| == 32
    ensures OuterOk(n, packet) <==> exists bucket, ephPk, nonce, sealed :: BuiltFor(n, packet, bucket, ephPk, nonce, sealed)
  {
    if OuterOk(n, packet) {
      WireOf(packet);
      assert BuiltFor(n, packet, packet[1], packet[10..42], packet[42..54], packet[54..]);
    }
    if bucket, ephPk, nonce, sealed :| BuiltFor(n, packet, bucket, ephPk, nonce, sealed) {
      WireFields(1, bucket, n.fingerprint[..8], ephPk, nonce, sealed);
    }
  }

  lemma PlainFields(kind: byte, sender: Key, payload: seq<byte>, size: nat)
    requires |payload| + 35 <= size && |payload| < 0x1_0000
    ensures var p := Plain(kind, sender, payload, size);
      && p[0] == kind && FromBigEndian(p[1..3]) == |payload| && p[3..35] == sender && p[35..35 + |payload|] == payload
      && p[35 + |payload|..] == Zeros(size - 35 - |payload|)
  {
    FieldSizes();
    BigEndianRoundTrip(|payload|, 2);
    PlainSlices([kind], BigEndian(|payload|, 2), sender, payload, Zeros(size - 35 - |payload|));
  }

  lemma PlainSlices(a: seq<byte>, b: seq<byte>, c: seq<byte>, d: seq<byte>, e: seq<byte>)
    requires |a| == 1 && |b| == 2 && |c| == 32
    ensures var p := a + b + c + d + e; p[0] == a[0] && p[1..3] == b && p[3..35] == c && p[35..35 + |d|] == d && p[35 + |d|..] == e
  {
  }

  lemma PlainOf(plain: seq<byte>, length: nat)
    requires |plain| >= 35 + length && length == FromBigEndian(plain[1..3])
    requires plain[35 + length..] == Zeros(|plain| - 35 - length)
    ensures length < 0x1_0000 && plain == Plain(plain[0], plain[3..35], plain[35..35 + length], |plain|)
  {
    FieldSizes();
    FromBigEndianRoundTrip(plain[1..3]);
    assert plain == [plain[0]] + plain[1..3] + plain[3..35] + plain[35..35 + length] + plain[35 + length..];
  }

  /** Steps 5 to 7 dispatch exactly what was sealed, in full: the text fills the bucket, its payload is as long as it
      says, and zeros follow. */
  lemma InnerIff(n: Node, packet: seq<byte>, kind: byte, sender: Key, payload: seq<byte>)
    requires OuterOk(n, packet)
    ensures Inner(n, packet) == Some(Dispatched(kind, sender, payload)) <==>
      |payload| + 105 <= |packet| && n.open(packet) == Some(Plain(kind, sender, payload, |packet| - 70))
  {
    if |payload| + 105 <= |packet| && n.open(packet) == Some(Plain(kind, sender, payload, |packet| - 70)) {
      PlainFields(kind, sender, payload, |packet| - 70);
    }
    if Inner(n, packet).Some? {
      var plain := n.open(packet).value;
      PlainOf(plain, FromBigEndian(plain[1..3]));
    }
  }

  /** Steps 1 to 7. */
  predicate Passes(n: Node, packet: seq<byte>) { OuterOk(n, packet) && Inner(n, packet).Some? }

  ghost function Receive(n: Node, l: Log, packet: seq<byte>, now: nat): (Log, Result)
  {
    if !OuterOk(n, packet) || Inner(n, packet).None? then (l, Dropped)
    else if Holds(l, KeyOf(packet)) then (l, Dropped)
    else (Step(l, Packet(KeyOf(packet), now)), Inner(n, packet).value)
  }

  // ----- Runs of the receive path -----

  datatype Arrival = Arrives(packet: seq<byte>, at: nat) | Evicts(dropped: set<nat>, at: nat)

  ghost function Handle(n: Node, l: Log, a: Arrival): (Log, Result)
  {
    match a
    case Arrives(packet, at) => Receive(n, l, packet, at)
    case Evicts(dropped, at) => (Step(l, Evict(dropped, at)), Dropped)
  }

  /** A run under a clock that does not go back, with evictions the reading allows. */
  ghost predicate LegalRun(n: Node, l: Log, clock: nat, arrivals: seq<Arrival>, r: Reading)
    decreases |arrivals|
  {
    arrivals == [] ||
    var a := arrivals[0];
    && clock <= a.at && (a.Evicts? ==> Allowed(l, Evict(a.dropped, a.at), r))
    && LegalRun(n, Handle(n, l, a).0, a.at, arrivals[1..], r)
  }

  ghost function LogAfter(n: Node, l: Log, arrivals: seq<Arrival>): Log
    decreases |arrivals|
  {
    if arrivals == [] then l else LogAfter(n, Handle(n, l, arrivals[0]).0, arrivals[1..])
  }

  /** A packet that got through, with what was handed on. */
  datatype Delivery = Delivery(packet: seq<byte>, at: nat, result: Result)

  ghost function Delivered(n: Node, l: Log, a: Arrival): seq<Delivery>
  {
    if a.Arrives? && Handle(n, l, a).1.Dispatched? then [Delivery(a.packet, a.at, Handle(n, l, a).1)] else []
  }

  /** All the packets of a run that get through, in order. */
  ghost function Deliveries(n: Node, l: Log, arrivals: seq<Arrival>): seq<Delivery>
    decreases |arrivals|
  {
    if arrivals == [] then [] else
    Delivered(n, l, arrivals[0]) + Deliveries(n, Handle(n, l, arrivals[0]).0, arrivals[1..])
  }

  function Keep(n: Node, a: Arrival): bool { a.Evicts? || Passes(n, a.packet) }

  /** The run without the packets that fail one of the steps 1 to 7. */
  function Authentic(n: Node, arrivals: seq<Arrival>): seq<Arrival>
  {
    if arrivals == [] then [] else (if Keep(n, arrivals[0]) then [arrivals[0]] else []) + Authentic(n, arrivals[1..])
  }

  /** What passes the first seven steps is all the replay log gets to see. */
  lemma {:induction false} FailuresLeaveNoTrace(n: Node, l: Log, arrivals: seq<Arrival>)
    ensures Deliveries(n, l, Authentic(n, arrivals)) == Deliveries(n, l, arrivals)
    ensures LogAfter(n, l, Authentic(n, arrivals)) == LogAfter(n, l, arrivals)
    decreases |arrivals|
  {
    if arrivals != [] {
      var a, rest := arrivals[0], arrivals[1..];
      FailuresLeaveNoTrace(n, Handle(n, l, a).0, rest);
      if Keep(n, a) {
        assert ([a] + Authentic(n, rest))[1..] == Authentic(n, rest);
      } else {
        assert Handle(n, l, a) == (l, Dropped);
        assert [] + Authentic(n, rest) == Authentic(n, rest);
        assert [] + Deliveries(n, l, rest) == Deliveries(n, l, rest);
      }
    }
  }

  /** The log's event for an arrival, if the log is consulted at all. */
  function LogEvent(n: Node, a: Arrival): seq<Event>
  {
    match a
    case Arrives(packet, at) => if Passes(n, packet) then [Packet(KeyOf(packet), at)] else []
    case Evicts(dropped, at) => [Evict(dropped, at)]
  }

  function LogEvents(n: Node, arrivals: seq<Arrival>): seq<Event>
  {
    if arrivals == [] then [] else LogEvent(n, arrivals[0]) + LogEvents(n, arrivals[1..])
  }

  lemma EarlierClock(l: Log, clock: nat, clock': nat, events: seq<Event>, r: Reading)
    requires clock <= clock' && Legal(l, clock', events, r)
    ensures Legal(l, clock, events, r)
  {
  }

  /** To the log, a run of the receive path is a run of its own. */
  lemma {:induction false} RunsTheLog(n: Node, l: Log, clock: nat, arrivals: seq<Arrival>, r: Reading)
    requires LegalRun(n, l, clock, arrivals, r)
    ensures Legal(l, clock, LogEvents(n, arrivals), r)
    ensures LogAfter(n, l, arrivals) == Run(l, LogEvents(n, arrivals))
    decreases |arrivals|
  {
    if arrivals != [] {
      var a, events := arrivals[0], LogEvents(n, arrivals[1..]);
      RunsTheLog(n, Handle(n, l, a).0, a.at, arrivals[1..], r);
      if LogEvent(n, a) == [] {
        assert [] + events == events;
        EarlierClock(l, clock, a.at, events, r);
      } else {
        assert LogEvent(n, a) == [LogEvent(n, a)[0]] && (LogEvent(n, a) + events)[1..] == events;
      }
    }
  }

  /** What gets through is what the log records, packet by packet. */
  ghost predicate Records(accepted: seq<Entry>, from: nat, ds: seq<Delivery>)
  {
    && |accepted| == from + |ds|
    && forall i :: 0 <= i < |ds| ==> |ds[i].packet| >= 54 && accepted[from + i] == Entry(KeyOf(ds[i].packet), ds[i].at)
  }

  lemma {:induction false} LogRecords(n: Node, l: Log, arrivals: seq<Arrival>)
    ensures Records(LogAfter(n, l, arrivals).accepted, |l.accepted|, Deliveries(n, l, arrivals))
    ensures LogAfter(n, l, arrivals).accepted[..|l.accepted|] == l.accepted
    decreases |arrivals|
  {
    if arrivals != [] {
      var a, l' := arrivals[0], Handle(n, l, arrivals[0]).0;
      LogRecords(n, l', arrivals[1..]);
      var log, ds := LogAfter(n, l, arrivals).accepted, Deliveries(n, l', arrivals[1..]);
      assert log[..|l'.accepted|] == l'.accepted;
      if Delivered(n, l, a) != [] {
        assert log[|l.accepted|] == log[..|l'.accepted|][|l.accepted|] == Entry(KeyOf(a.packet), a.at);
        assert log[..|l.accepted|] == l'.accepted[..|l.accepted|] == l.accepted;
      } else {
        assert [] + ds == ds;
      }
    }
  }

  /** In every run of the receive path two packets of one ephemeral key and nonce both get through only with
      300 seconds and (strict reading) 8192 other deliveries between them. */
  lemma NothingDeliveredTwice(n: Node, arrivals: seq<Arrival>, r: Reading, i: nat, j: nat)
    requires LegalRun(n, EMPTY, 0, arrivals, r)
    requires var ds := Deliveries(n, EMPTY, arrivals); i < j < |ds| && SameKey(ds[i].packet, ds[j].packet)
    ensures var ds := Deliveries(n, EMPTY, arrivals); ds[j].at >= ds[i].at + 300 && (r.Strict? ==> j - i - 1 >= 8192)
  {
    RunsTheLog(n, EMPTY, 0, arrivals, r);
    LogRecords(n, EMPTY, arrivals);
    var accepted, ds := LogAfter(n, EMPTY, arrivals).accepted, Deliveries(n, EMPTY, arrivals);
    assert accepted[0 + i].key == KeyOf(ds[i].packet) && accepted[0 + j].key == KeyOf(ds[j].packet);
    NoReplayInWindow(LogEvents(n, arrivals), r, i, j);
  }

  /** A packet that passes the first seven steps and differs from every packet that got through in its ephemeral key
      or in its nonce does get through, whatever else arrived, forgeries under both included. */
  lemma ForgeryDoesNotBurnKey(n: Node, arrivals: seq<Arrival>, genuine: seq<byte>, now: nat)
    requires Passes(n, genuine)
    requires forall d :: d in Deliveries(n, EMPTY, arrivals) ==>
      |d.packet| < 54 || d.packet[10..42] != genuine[10..42] || d.packet[42..54] != genuine[42..54]
    ensures var l := LogAfter(n, EMPTY, arrivals);
      Receive(n, l, genuine, now) == (Step(l, Packet(KeyOf(genuine), now)), Inner(n, genuine).value)
  {
    LogRecords(n, EMPTY, arrivals);
    var l, ds := LogAfter(n, EMPTY, arrivals), Deliveries(n, EMPTY, arrivals);
    KeyHalves(genuine);
    forall i | 0 <= i < |l.accepted| ensures l.accepted[i].key != KeyOf(genuine) {
      assert ds[i] in ds && l.accepted[0 + i] == Entry(KeyOf(ds[i].packet), ds[i].at);
      KeyHalves(ds[i].packet);
      Halves(ds[i].packet[10..42], ds[i].packet[42..54], genuine[10..42], genuine[42..54]);
    }
  }

  /** Retransmitting a delivered packet, or any with its ephemeral key and nonce, within 300 seconds or (strict
      reading) before 8192 newer deliveries is without any effect. */
  lemma RetransmissionDropped(n: Node, arrivals: seq<Arrival>, r: Reading, i: nat, packet: seq<byte>, now: nat)
    requires LegalRun(n, EMPTY, 0, arrivals + [Arrives(packet, now)], r)
    requires var ds := Deliveries(n, EMPTY, arrivals); i < |ds| && SameKey(ds[i].packet, packet)
    requires var ds := Deliveries(n, EMPTY, arrivals); now < ds[i].at + 300 || (r.Strict? && |ds| - i <= 8192)
    ensures var l := LogAfter(n, EMPTY, arrivals); Receive(n, l, packet, now) == (l, Dropped)
  {
    var l, ds := LogAfter(n, EMPTY, arrivals), Deliveries(n, EMPTY, arrivals);
    if Receive(n, l, packet, now) != (l, Dropped) {
      DeliveriesSnoc(n, EMPTY, arrivals, Arrives(packet, now));
      NothingDeliveredTwice(n, arrivals + [Arrives(packet, now)], r, i, |ds|);
    }
  }

  lemma {:induction false} DeliveriesSnoc(n: Node, l: Log, arrivals: seq<Arrival>, a: Arrival)
    ensures Deliveries(n, l, arrivals + [a]) == Deliveries(n, l, arrivals) + Delivered(n, LogAfter(n, l, arrivals), a)
    decreases |arrivals|
  {
    if arrivals == [] {
      assert [a][1..] == [] && [] + [a] == [a] && Delivered(n, l, a) + [] == Delivered(n, l, a) == [] + Delivered(n, l, a);
    } else {
      var l' := Handle(n, l, arrivals[0]).0;
      assert (arrivals + [a])[1..] == arrivals[1..] + [a];
      DeliveriesSnoc(n, l', arrivals[1..], a);
      Associate(Delivered(n, l, arrivals[0]), Deliveries(n, l', arrivals[1..]), Delivered(n, LogAfter(n, l', arrivals[1..]), a));
    }
  }

  // ----- An implementation that evicts oldest first -----

  ghost function Range(lo: nat, hi: nat): (s: set<nat>)
    ensures forall i :: i in s <==> lo <= i < hi
    decreases hi - lo
  {
    if lo >= hi then {} else {lo} + Range(lo + 1, hi)
  }

  class ReplayLog {
    var entries: seq<Entry>
    ghost var history: seq<Entry>

    ghost predicate Valid()
      reads this
    {
      |entries| <= |history| && entries == history[|history| - |entries|..]
    }

    /** The abstract log: the retained entries are the newest ones. */
    ghost function View(): Log
      reads this
      requires Valid()
    {
      Log(history, Range(|history| - |entries|, |history|))
    }

    constructor ()
      ensures Valid() && View() == EMPTY
    {
      entries, history := [], [];
    }

    method Find(key: PacketKey) returns (found: bool)
      requires Valid()
      ensures found <==> Holds(View(), key)
    {
      found := false;
      ghost var offset := |history| - |entries|;
      for k := 0 to |entries|
        invariant found <==> exists i :: offset <= i < offset + k && history[i].key == key
      {
        assert entries[k] == history[offset + k];
        if entries[k].key == key { found := true; }
      }
    }

    /** Drops a replay, records anything else. */
    method Check(key: PacketKey, now: nat) returns (accepted: bool)
      requires Valid()
      modifies this
      ensures Valid() && accepted == Accepts(old(View()), key) && View() == Step(old(View()), Packet(key, now))
    {
      var found := Find(key);
      accepted := !found;
      if accepted {
        entries, history := entries + [Entry(key, now)], history + [Entry(key, now)];
      }
    }

    /** What the receive path does with a packet that passed every check before: a new key is inserted, and
        inserting evicts. */
    method CheckAndInsert(key: PacketKey, now: nat) returns (accepted: bool, ghost dropped: set<nat>)
      requires Valid()
      modifies this
      ensures Valid() && accepted == Accepts(old(View()), key)
      ensures var l := Step(old(View()), Packet(key, now));
        Allowed(l, Evict(dropped, now), Strict) && View() == Step(l, Evict(dropped, now))
    {
      accepted := Check(key, now);
      if accepted {
        dropped := Trim(now);
      } else {
        dropped := {};
        assert View().kept - {} == View().kept;
      }
    }

    /** Drops from the old end whatever is both past the time window and beyond the size bound. */
    method Trim(now: nat) returns (ghost dropped: set<nat>)
      requires Valid()
      modifies this
      ensures Valid() && Allowed(old(View()), Evict(dropped, now), Strict) && View() == Step(old(View()), Evict(dropped, now))
      ensures |entries| > SIZE_BOUND ==> now < entries[0].at + TIME_WINDOW
    {
      ghost var first := |history| - |entries|;
      while |entries| > SIZE_BOUND && now >= entries[0].at + TIME_WINDOW
        invariant Valid() && history == old(history) && first <= |history| - |entries|
        invariant forall i :: first <= i < |history| - |entries| ==> MayEvict(old(View()), i, now, Strict)
        decreases |entries|
      {
        entries := entries[1..];
      }
      dropped := Range(first, |history| - |entries|);
    }
  }
}
