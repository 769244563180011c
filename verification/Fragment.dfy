/** Multi-cell handshake messages: cutting into headed fragments, and reassembly. */
module Fragment {
  import opened Bytes

  const HEADER: nat := 8
  const MAX_FRAGMENTS: nat := 255
  const TIMEOUT: nat := 30_000      // milliseconds
  const MAX_PENDING: nat := 16      // concurrent handshakes per reassembler
  const MAX_MESSAGE: nat := 65_536

  type HandshakeId = n: nat | n < 0x1_0000_0000

  datatype Fragment = Fragment(index: nat, count: nat, id: HandshakeId, data: seq<byte>)

  ghost predicate WellFormed(f: Fragment) { f.index < f.count <= MAX_FRAGMENTS && |f.data| < 0x1_0000 }

  /** All fragments but the last are full. */
  predicate Full(f: Fragment, capacity: nat) { |f.data| <= capacity && (f.index + 1 < f.count ==> |f.data| == capacity) }

  // ----- One fragment -----

  function Head(f: Fragment): (head: seq<byte>)
    requires WellFormed(f)
    ensures |head| == HEADER
  {
    [f.index as byte, f.count as byte] + BigEndian(f.id, 4) + BigEndian(|f.data|, 2)
  }

  function Encode(f: Fragment, capacity: nat): (buffer: seq<byte>)
    requires WellFormed(f) && |f.data| <= capacity
    ensures |buffer| == HEADER + capacity
  {
    Head(f) + f.data + Zeros(capacity - |f.data|)
  }

  /** What a buffer carries: the header's counts must agree, only the last fragment may be short, and what the
      data leave free must be zero. */
  function Decode(buffer: seq<byte>): (r: Option<Fragment>)
    ensures r.Some? ==> |buffer| > HEADER && WellFormed(r.value) && Full(r.value, |buffer| - HEADER)
  {
    if |buffer| <= HEADER then None else
    FieldSizes();
    var capacity := |buffer| - HEADER;
    var index, count, length := buffer[0] as nat, buffer[1] as nat, FromBigEndian(buffer[6..8]);
    if count == 0 || index >= count || length > capacity || (index + 1 < count && length != capacity) then None
    else if buffer[HEADER + length..] != Zeros(capacity - length) then None
    else Some(Fragment(index, count, FromBigEndian(buffer[2..6]), buffer[HEADER..HEADER + length]))
  }

  lemma HeadFields(f: Fragment)
    requires WellFormed(f)
    ensures var h := Head(f);
      h[0] as nat == f.index && h[1] as nat == f.count && FromBigEndian(h[2..6]) == f.id && FromBigEndian(h[6..8]) == |f.data|
  {
    FieldSizes();
    BigEndianRoundTrip(f.id, 4);
    BigEndianRoundTrip(|f.data|, 2);
    HeadSlices([f.index as byte, f.count as byte], BigEndian(f.id, 4), BigEndian(|f.data|, 2));
  }

  lemma HeadSlices(a: seq<byte>, b: seq<byte>, c: seq<byte>)
    requires |a| == |c| == 2 && |b| == 4
    ensures var h := a + b + c; h[0] == a[0] && h[1] == a[1] && h[2..6] == b && h[6..8] == c
  {
  }

  lemma BufferSlices(head: seq<byte>, data: seq<byte>, padding: seq<byte>)
    requires |head| == HEADER
    ensures var b := head + data + padding;
      && b[0] == head[0] && b[1] == head[1] && b[2..6] == head[2..6] && b[6..8] == head[6..8]
      && b[HEADER..HEADER + |data|] == data && b[HEADER + |data|..] == padding
  {
  }

  lemma DecodeEncode(f: Fragment, capacity: nat)
    requires WellFormed(f) && Full(f, capacity) && capacity > 0
    ensures Decode(Encode(f, capacity)) == Some(f)
  {
    HeadFields(f);
    BufferSlices(Head(f), f.data, Zeros(capacity - |f.data|));
  }

  lemma HeadBack(f: Fragment, head: seq<byte>)
    requires WellFormed(f) && |head| == HEADER
    requires head[0] as nat == f.index && head[1] as nat == f.count && FromBigEndian(head[2..6]) == f.id && FromBigEndian(head[6..8]) == |f.data|
    ensures Head(f) == head
  {
    FromBigEndianRoundTrip(head[2..6]);
    FromBigEndianRoundTrip(head[6..8]);
    assert head == [head[0], head[1]] + head[2..6] + head[6..8];
  }

  lemma BufferCut(b: seq<byte>, n: nat)
    requires HEADER + n <= |b|
    ensures b == b[..HEADER] + b[HEADER..HEADER + n] + b[HEADER + n..]
    ensures var head := b[..HEADER]; head[0] == b[0] && head[1] == b[1] && head[2..6] == b[2..6] && head[6..8] == b[6..8]
  {
  }

  /** A buffer decodes to at most one fragment, and is that fragment's only encoding. */
  lemma EncodeDecoded(buffer: seq<byte>)
    requires Decode(buffer).Some?
    ensures Encode(Decode(buffer).value, |buffer| - HEADER) == buffer
  {
    var f := Decode(buffer).value;
    BufferCut(buffer, |f.data|);
    HeadBack(f, buffer[..HEADER]);
  }

  /** A fragment's bytes: index, count, handshake id, length, data, zeros. */
  lemma FragmentLayout(f: Fragment, capacity: nat)
    requires WellFormed(f) && |f.data| <= capacity
    ensures var b := Encode(f, capacity);
      && |b| == 8 + capacity && b[0] as nat == f.index && b[1] as nat == f.count && FromBigEndian(b[2..6]) == f.id
      && FromBigEndian(b[6..8]) == |f.data| && b[8..8 + |f.data|] == f.data && b[8 + |f.data|..] == Zeros(capacity - |f.data|)
  {
    HeadFields(f);
    BufferSlices(Head(f), f.data, Zeros(capacity - |f.data|));
  }

  /** The layout, on the published one-byte message of handshake 0x12345678. */
  lemma SingleByteVector()
    ensures Encode(Fragment(0, 1, 0x12345678, [0x42]), 500)
         == [0x00, 0x01, 0x12, 0x34, 0x56, 0x78, 0x00, 0x01, 0x42] + Zeros(499)
  {
    FourBytes(0x12345678);
    TwoBytes(1);
  }

  // ----- A whole message -----

  /** Consecutive pieces of `capacity` bytes; the last one may be shorter. */
  function Pieces(message: seq<byte>, capacity: nat): (ps: seq<seq<byte>>)
    requires capacity > 0
    ensures forall i :: 0 <= i < |ps| ==> |ps[i]| <= capacity
  {
    if message == [] then []
    else if |message| <= capacity then [message]
    else [message[..capacity]] + Pieces(message[capacity..], capacity)
  }

  function FragmentMessage(message: seq<byte>, id: HandshakeId, capacity: nat): (r: Option<seq<seq<byte>>>)
    requires 0 < capacity < 0x1_0000
  {
    var ps := Pieces(message, capacity);
    if ps == [] || |ps| > MAX_FRAGMENTS then None
    else Some(seq(|ps|, i requires 0 <= i < |ps| => Encode(Fragment(i, |ps|, id, ps[i]), capacity)))
  }

  function Concat(ps: seq<seq<byte>>): seq<byte> { if ps == [] then [] else ps[0] + Concat(ps[1..]) }

  /** The number of pieces is the ceiling of length over capacity, all but the last are full, the last is
      not empty, and together they are the message. */
  lemma {:induction false} PiecesCut(message: seq<byte>, capacity: nat)
    requires capacity > 0
    ensures var ps := Pieces(message, capacity);
      && Concat(ps) == message
      && (message == [] <==> ps == [])
      && (ps != [] ==> (|ps| - 1) * capacity < |message| <= |ps| * capacity)
      && (forall i :: 0 <= i < |ps| - 1 ==> |ps[i]| == capacity)
      && (forall i :: 0 <= i < |ps| ==> ps[i] != [])
    decreases |message|
  {
    var ps := Pieces(message, capacity);
    if message == [] {
    } else if |message| <= capacity {
      assert Concat(ps) == ps[0] + Concat(ps[1..]) && ps[1..] == [];
    } else {
      PiecesCut(message[capacity..], capacity);
      var rest := Pieces(message[capacity..], capacity);
      assert ps[1..] == rest;
      assert (|ps| - 1) * capacity == (|rest| - 1) * capacity + capacity;
      assert |ps| * capacity == |rest| * capacity + capacity;
    }
  }

  lemma {:induction false} ConcatSnoc(ps: seq<seq<byte>>, p: seq<byte>)
    ensures Concat(ps + [p]) == Concat(ps) + p
  {
    if ps == [] {
      assert Concat([p]) == p + Concat([p][1..]);
    } else {
      ConcatSnoc(ps[1..], p);
      assert (ps + [p])[1..] == ps[1..] + [p];
      assert ps[0] + (Concat(ps[1..]) + p) == (ps[0] + Concat(ps[1..])) + p;
    }
  }

  /** A message can be sent exactly if it is not empty and fits 255 fragments. */
  lemma Sendable(message: seq<byte>, id: HandshakeId, capacity: nat)
    requires 0 < capacity < 0x1_0000
    ensures FragmentMessage(message, id, capacity).Some? <==> 0 < |message| <= MAX_FRAGMENTS * capacity
  {
    PiecesCut(message, capacity);
    var n := |Pieces(message, capacity)|;
    if n > MAX_FRAGMENTS {
      MultiplyMonotone(MAX_FRAGMENTS, n - 1, capacity);
    } else {
      MultiplyMonotone(n, MAX_FRAGMENTS, capacity);
    }
  }

  lemma MultiplyMonotone(a: int, b: int, c: nat)
    requires a <= b
    ensures a * c <= b * c
  {
  }

  // ----- Reassembly -----

  /** One handshake in progress: the buffer size its first fragment had, and what has come so far. */
  datatype Entry = Entry(id: HandshakeId, size: nat, fragments: seq<Option<seq<byte>>>, received: nat, createdAt: nat)

  /** Oldest entry first, as the map of the reassembler iterates. */
  type Table = seq<Entry>

  datatype Outcome = Refused | Buffered | Complete(id: HandshakeId, message: seq<byte>)

  function Nothing(n: nat): (s: seq<Option<seq<byte>>>)
    ensures |s| == n && forall i :: 0 <= i < n ==> s[i] == None
  {
    seq(n, _ => None)
  }

  function Find(t: Table, id: HandshakeId): (e: Option<Entry>)
    ensures e.Some? ==> e.value.id == id && e.value in t
    ensures e.None? <==> forall i :: 0 <= i < |t| ==> t[i].id != id
  {
    if t == [] then None else if t[0].id == id then Some(t[0]) else Find(t[1..], id)
  }

  function Filter(t: Table, keep: Entry -> bool): (r: Table)
    ensures r == t || |r| < |t|
    ensures forall e :: e in r <==> e in t && keep(e)
  {
    if t == [] then [] else (if keep(t[0]) then [t[0]] else []) + Filter(t[1..], keep)
  }

  function Remove(t: Table, id: HandshakeId): Table { Filter(t, (e: Entry) => e.id != id) }

  function Update(t: Table, e: Entry): (r: Table)
    ensures |r| == |t|
    ensures forall i :: 0 <= i < |t| ==> r[i] == if t[i].id == e.id then e else t[i]
  {
    if t == [] then [] else [if t[0].id == e.id then e else t[0]] + Update(t[1..], e)
  }

  /** The first entry of least age stamp. */
  function Oldest(t: Table): (e: Entry)
    requires t != []
    ensures e in t && forall x :: x in t ==> e.createdAt <= x.createdAt
  {
    if |t| == 1 then t[0] else
    var rest := Oldest(t[1..]);
    if t[0].createdAt <= rest.createdAt then t[0] else rest
  }

  /** Room for one more: at the cap the oldest handshake is dropped. */
  function MakeRoom(t: Table): (r: Table)
    ensures |r| < MAX_PENDING || |r| < |t|
  {
    if |t| >= MAX_PENDING then Remove(t, Oldest(t).id) else t
  }

  function Assemble(fragments: seq<Option<seq<byte>>>): seq<byte>
  {
    if fragments == [] then []
    else Assemble(fragments[..|fragments| - 1]) + match fragments[|fragments| - 1] case None => [] case Some(data) => data
  }

  function Added(e: Entry, f: Fragment): Entry
    requires f.index < |e.fragments|
  {
    e.(fragments := e.fragments[f.index := Some(f.data)], received := e.received + 1)
  }

  /** An entry put back, or assembled and taken out if nothing is missing. */
  function Store(t: Table, e: Entry): (Table, Outcome)
  {
    if e.received < |e.fragments| then (Update(t, e), Buffered) else
    var message := Assemble(e.fragments);
    (Remove(t, e.id), if |message| > MAX_MESSAGE then Refused else Complete(e.id, message))
  }

  /** A fragment for an open handshake: another count or size is refused, a repeated index ends the handshake,
      the last one missing completes it. */
  function Absorb(t: Table, e: Entry, f: Fragment, size: nat): (Table, Outcome)
    requires WellFormed(f)
  {
    if |e.fragments| != f.count || e.size != size then (t, Refused)
    else if e.fragments[f.index].Some? then (Remove(t, f.id), Refused)
    else Store(t, Added(e, f))
  }

  function Fresh(f: Fragment, size: nat, now: nat): Entry { Entry(f.id, size, Nothing(f.count), 0, now) }

  function Ingest(t: Table, now: nat, buffer: seq<byte>): (Table, Outcome)
  {
    match Decode(buffer)
    case None => (t, Refused)
    case Some(f) =>
      match Find(t, f.id)
      case Some(e) => Absorb(t, e, f, |buffer|)
      case None =>
        var e := Fresh(f, |buffer|, now);
        Absorb(MakeRoom(t) + [e], e, f, |buffer|)
  }

  function Sweep(t: Table, now: nat): Table { Filter(t, (e: Entry) => now <= e.createdAt + TIMEOUT) }

  datatype Event = Arrival(buffer: seq<byte>, now: nat) | Sweeping(now: nat)

  function Step(t: Table, e: Event): (Table, Outcome)
  {
    match e
    case Arrival(buffer, now) => Ingest(t, now, buffer)
    case Sweeping(now) => (Sweep(t, now), Buffered)
  }

  // ----- What every step keeps -----

  function CountSome(s: seq<Option<seq<byte>>>): (n: nat)
    ensures n <= |s|
  {
    if s == [] then 0 else CountSome(s[..|s| - 1]) + if s[|s| - 1].Some? then 1 else 0
  }

  /** The counter counts, and something is missing still. */
  predicate EntryOk(e: Entry) { e.received == CountSome(e.fragments) < |e.fragments| }

  ghost predicate Unique(t: Table) { forall i, j :: 0 <= i < j < |t| ==> t[i].id != t[j].id }

  ghost predicate Valid(t: Table)
  {
    && |t| <= MAX_PENDING
    && (forall i :: 0 <= i < |t| ==> EntryOk(t[i]))
    && Unique(t)
  }

  lemma {:induction false} CountSet(s: seq<Option<seq<byte>>>, i: nat, data: seq<byte>)
    requires i < |s| && s[i].None?
    ensures CountSome(s[i := Some(data)]) == CountSome(s) + 1
  {
    var n := |s| - 1;
    if i < n {
      assert s[i := Some(data)][..n] == s[..n][i := Some(data)];
      CountSet(s[..n], i, data);
    } else {
      assert s[i := Some(data)][..n] == s[..n];
    }
  }

  lemma {:induction false} CountAll(s: seq<Option<seq<byte>>>)
    ensures CountSome(s) == |s| <==> forall i :: 0 <= i < |s| ==> s[i].Some?
    ensures CountSome(s) == 0 <==> forall i :: 0 <= i < |s| ==> s[i].None?
  {
    if s != [] {
      CountAll(s[..|s| - 1]);
      assert forall i :: 0 <= i < |s| - 1 ==> s[..|s| - 1][i] == s[i];
    }
  }

  lemma {:induction false} FindIs(t: Table, e: Entry)
    requires Unique(t) && e in t
    ensures Find(t, e.id) == Some(e)
  {
    if t[0] != e {
      var i :| 0 <= i < |t| && t[i] == e;
      assert t[1..][i - 1] == e;
      FindIs(t[1..], e);
    }
  }

  lemma {:induction false} FilterUnique(t: Table, keep: Entry -> bool)
    requires Unique(t)
    ensures Unique(Filter(t, keep))
  {
    if t != [] {
      var rest := Filter(t[1..], keep);
      FilterUnique(t[1..], keep);
      forall j | 0 <= j < |rest| ensures rest[j].id != t[0].id { assert rest[j] in t[1..]; }
    }
  }

  /** Filtering, replacing and appending entries, seen from any one handshake. */
  lemma FindFilter(t: Table, keep: Entry -> bool, x: HandshakeId)
    requires Unique(t)
    ensures Find(Filter(t, keep), x) == if Find(t, x).Some? && keep(Find(t, x).value) then Find(t, x) else None
  {
    FilterUnique(t, keep);
    var r := Filter(t, keep);
    if Find(t, x).Some? && keep(Find(t, x).value) { FindIs(r, Find(t, x).value); }
    if Find(r, x).Some? { FindIs(t, Find(r, x).value); }
  }

  lemma FindRemove(t: Table, id: HandshakeId, x: HandshakeId)
    requires Unique(t)
    ensures Find(Remove(t, id), x) == if x == id then None else Find(t, x)
  {
    FindFilter(t, (e: Entry) => e.id != id, x);
  }

  lemma {:induction false} FindUpdate(t: Table, e: Entry, x: HandshakeId)
    ensures Find(Update(t, e), x) == if x == e.id && Find(t, x).Some? then Some(e) else Find(t, x)
  {
    if t != [] { FindUpdate(t[1..], e, x); }
  }

  lemma {:induction false} FindAppend(t: Table, e: Entry, x: HandshakeId)
    ensures Find(t + [e], x) == if Find(t, x).Some? then Find(t, x) else if x == e.id then Some(e) else None
  {
    if t == [] {
      assert [] + [e] == [e] && [e][1..] == [];
    } else {
      assert (t + [e])[1..] == t[1..] + [e];
      FindAppend(t[1..], e, x);
    }
  }

  lemma FilterKeepsValid(t: Table, keep: Entry -> bool)
    requires Valid(t)
    ensures Valid(Filter(t, keep))
  {
    FilterUnique(t, keep);
    var r := Filter(t, keep);
    forall i | 0 <= i < |r| ensures EntryOk(r[i]) { assert r[i] in t; }
  }

  lemma RemoveKeepsValid(t: Table, id: HandshakeId)
    requires Valid(t)
    ensures Valid(Remove(t, id))
  {
    FilterKeepsValid(t, (e: Entry) => e.id != id);
  }

  lemma RoomKeepsValid(t: Table, x: HandshakeId)
    requires Valid(t) && Find(t, x).None?
    ensures Valid(MakeRoom(t)) && |MakeRoom(t)| < MAX_PENDING && Find(MakeRoom(t), x).None?
  {
    if |t| >= MAX_PENDING {
      FindIs(t, Oldest(t));
      RemoveKeepsValid(t, Oldest(t).id);
      FindRemove(t, Oldest(t).id, x);
    }
  }

  lemma AppendKeepsValid(t: Table, e: Entry)
    requires Valid(t) && |t| < MAX_PENDING && Find(t, e.id).None? && EntryOk(e)
    ensures Valid(t + [e])
  {
  }

  /** A handshake opened: room is made for it, and it stands last. */
  lemma OpenKeepsValid(t: Table, f: Fragment, size: nat, now: nat)
    requires Valid(t) && WellFormed(f) && Find(t, f.id).None?
    ensures var e := Fresh(f, size, now); EntryOk(e) && Valid(MakeRoom(t) + [e]) && Find(MakeRoom(t) + [e], f.id) == Some(e)
  {
    var e := Fresh(f, size, now);
    RoomKeepsValid(t, f.id);
    CountAll(e.fragments);
    AppendKeepsValid(MakeRoom(t), e);
    FindAppend(MakeRoom(t), e, f.id);
  }

  lemma AddedCounts(e: Entry, f: Fragment)
    requires EntryOk(e) && f.index < |e.fragments| && e.fragments[f.index].None?
    ensures Added(e, f).received == CountSome(Added(e, f).fragments)
  {
    CountSet(e.fragments, f.index, f.data);
  }

  lemma StoreKeepsValid(t: Table, e: Entry)
    requires Valid(t) && e.received == CountSome(e.fragments)
    ensures Valid(Store(t, e).0)
  {
    if e.received < |e.fragments| { UpdateKeepsValid(t, e); } else { RemoveKeepsValid(t, e.id); }
  }

  lemma UpdateKeepsValid(t: Table, e: Entry)
    requires Valid(t) && EntryOk(e)
    ensures Valid(Update(t, e))
  {
  }

  lemma FindStore(t: Table, e: Entry, x: HandshakeId)
    requires Unique(t) && Find(t, e.id).Some?
    ensures Find(Store(t, e).0, x) ==
      if x != e.id then Find(t, x) else if e.received < |e.fragments| then Some(e) else None
  {
    FindUpdate(t, e, x);
    FindRemove(t, e.id, x);
  }

  lemma AbsorbKeepsValid(t: Table, e: Entry, f: Fragment, size: nat)
    requires Valid(t) && WellFormed(f) && Find(t, f.id) == Some(e)
    ensures Valid(Absorb(t, e, f, size).0)
  {
    RemoveKeepsValid(t, f.id);
    if |e.fragments| == f.count && e.fragments[f.index].None? {
      AddedCounts(e, f);
      StoreKeepsValid(t, Added(e, f));
    }
  }

  /** In every run at most 16 handshakes are in progress, their counters count, and no id stands twice. */
  lemma StepKeepsValid(t: Table, e: Event)
    requires Valid(t)
    ensures Valid(Step(t, e).0)
  {
    match e
    case Sweeping(now) => FilterKeepsValid(t, (e: Entry) => now <= e.createdAt + TIMEOUT);
    case Arrival(buffer, now) =>
      if Decode(buffer).Some? {
        var f := Decode(buffer).value;
        if Find(t, f.id).Some? {
          AbsorbKeepsValid(t, Find(t, f.id).value, f, |buffer|);
        } else {
          OpenKeepsValid(t, f, |buffer|, now);
          AbsorbKeepsValid(MakeRoom(t) + [Fresh(f, |buffer|, now)], Fresh(f, |buffer|, now), f, |buffer|);
        }
      }
  }

  // ----- One handshake in the crowd -----

  /** A message on its way, under its handshake id, cut to a capacity. */
  datatype Handshake = Handshake(id: HandshakeId, message: seq<byte>, capacity: nat)

  ghost predicate Sent(h: Handshake) { 0 < h.capacity < 0x1_0000 && FragmentMessage(h.message, h.id, h.capacity).Some? }

  function Parts(h: Handshake): seq<seq<byte>>
    requires h.capacity > 0
  {
    Pieces(h.message, h.capacity)
  }

  ghost predicate Ours(h: Handshake, e: Event) { e.Arrival? && Decode(e.buffer).Some? && Decode(e.buffer).value.id == h.id }

  /** What comes under the handshake's id is one of the sender's fragments; anything else may come too. */
  ghost predicate Genuine(h: Handshake, e: Event)
    requires Sent(h)
  {
    Ours(h, e) ==> e.buffer in FragmentMessage(h.message, h.id, h.capacity).value
  }

  ghost function IndexOf(h: Handshake, e: Event): nat
    requires Ours(h, e)
  {
    Decode(e.buffer).value.index
  }

  lemma GenuineFragment(h: Handshake, e: Event)
    requires Sent(h) && Genuine(h, e) && Ours(h, e)
    ensures var i := IndexOf(h, e); i < |Parts(h)| && Decode(e.buffer) == Some(Fragment(i, |Parts(h)|, h.id, Parts(h)[i]))
    ensures |e.buffer| == HEADER + h.capacity
  {
    var ps := Parts(h);
    var i :| 0 <= i < |ps| && e.buffer == Encode(Fragment(i, |ps|, h.id, ps[i]), h.capacity);
    PiecesCut(h.message, h.capacity);
    DecodeEncode(Fragment(i, |ps|, h.id, ps[i]), h.capacity);
  }

  ghost predicate AllSeen(n: nat, seen: set<nat>) { forall i :: 0 <= i < n ==> i in seen }

  /** The pieces seen, each in its place. */
  function Held(ps: seq<seq<byte>>, seen: set<nat>): (s: seq<Option<seq<byte>>>)
    ensures |s| == |ps|
  {
    seq(|ps|, i requires 0 <= i < |ps| => if i in seen then Some(ps[i]) else None)
  }

  /** The table holds for the handshake exactly the pieces seen, and nothing if none is. */
  ghost predicate Tracks(t: Table, h: Handshake, seen: set<nat>)
    requires Sent(h)
  {
    && Valid(t) && (forall i :: i in seen ==> i < |Parts(h)|) && !AllSeen(|Parts(h)|, seen)
    && (seen == {} ==> Find(t, h.id) == None)
    && (seen != {} ==> Find(t, h.id).Some? && Holds(Find(t, h.id).value, h, seen))
  }

  ghost predicate Holds(e: Entry, h: Handshake, seen: set<nat>)
    requires Sent(h)
  {
    e.size == HEADER + h.capacity && e.fragments == Held(Parts(h), seen)
  }

  lemma {:induction false} AssembleHeld(fragments: seq<Option<seq<byte>>>, ps: seq<seq<byte>>)
    requires |fragments| == |ps| && forall i :: 0 <= i < |ps| ==> fragments[i] == Some(ps[i])
    ensures Assemble(fragments) == Concat(ps)
  {
    if ps != [] {
      var n := |ps| - 1;
      AssembleHeld(fragments[..n], ps[..n]);
      ConcatSnoc(ps[..n], ps[n]);
      assert ps == ps[..n] + [ps[n]];
    }
  }

  lemma {:induction false} HeldCounts(ps: seq<seq<byte>>, seen: set<nat>)
    ensures CountSome(Held(ps, seen)) == |ps| <==> AllSeen(|ps|, seen)
  {
    CountAll(Held(ps, seen));
    assert forall i :: 0 <= i < |ps| ==> (Held(ps, seen)[i].Some? <==> i in seen);
  }

  /** What the entry of the handshake is worth with one piece more. */
  lemma StoreHeld(t: Table, h: Handshake, seen: set<nat>, e: Entry)
    requires Sent(h) && Valid(t) && Find(t, h.id).Some? && e.id == h.id && Holds(e, h, seen)
    requires seen != {} && e.received == CountSome(e.fragments) && forall j :: j in seen ==> j < |Parts(h)|
    ensures var (t', o) := Store(t, e);
      if AllSeen(|Parts(h)|, seen)
      then Tracks(t', h, {}) && o == (if |h.message| > MAX_MESSAGE then Refused else Complete(h.id, h.message))
      else Tracks(t', h, seen) && o == Buffered
  {
    StoreKeepsValid(t, e);
    FindStore(t, e, h.id);
    HeldCounts(Parts(h), seen);
    NoneSeen(h);
    if AllSeen(|Parts(h)|, seen) {
      AssembleHeld(e.fragments, Parts(h));
      PiecesCut(h.message, h.capacity);
    }
  }

  /** One of the sender's fragments that has not come yet: it is stored, and the last one missing brings out
      the message, unless that is too long. */
  lemma AbsorbNext(t: Table, h: Handshake, seen: set<nat>, e: Entry, f: Fragment)
    requires Sent(h) && Valid(t) && Find(t, h.id) == Some(e) && EntryOk(e) && Holds(e, h, seen)
    requires f.index < |Parts(h)| && f == Fragment(f.index, |Parts(h)|, h.id, Parts(h)[f.index]) && WellFormed(f)
    requires f.index !in seen && forall j :: j in seen ==> j < |Parts(h)|
    ensures var (t', o) := Absorb(t, e, f, HEADER + h.capacity);
      if AllSeen(|Parts(h)|, seen + {f.index})
      then Tracks(t', h, {}) && o == (if |h.message| > MAX_MESSAGE then Refused else Complete(h.id, h.message))
      else Tracks(t', h, seen + {f.index}) && o == Buffered
  {
    AddedCounts(e, f);
    assert Added(e, f).fragments == Held(Parts(h), seen + {f.index});
    StoreHeld(t, h, seen + {f.index}, Added(e, f));
  }

  lemma NoneSeen(h: Handshake)
    requires Sent(h)
    ensures !AllSeen(|Parts(h)|, {})
  {
    var none: set<nat> := {};
    assert Parts(h) != [] && 0 !in none;
  }

  // ----- What ends a handshake before its time -----

  ghost predicate Repeats(h: Handshake, seen: set<nat>, e: Event) { Ours(h, e) && IndexOf(h, e) in seen }

  /** Another handshake opens, the table is full and ours is the oldest in it. */
  ghost predicate CrowdsOut(t: Table, h: Handshake, e: Event)
  {
    && e.Arrival? && Decode(e.buffer).Some? && Find(t, Decode(e.buffer).value.id).None?
    && |t| >= MAX_PENDING && Oldest(t).id == h.id
  }

  ghost predicate TimesOut(t: Table, h: Handshake, e: Event)
  {
    e.Sweeping? && Find(t, h.id).Some? && e.now > Find(t, h.id).value.createdAt + TIMEOUT
  }

  ghost predicate Loses(t: Table, h: Handshake, seen: set<nat>, e: Event)
  {
    seen != {} && (Repeats(h, seen, e) || CrowdsOut(t, h, e) || TimesOut(t, h, e))
  }

  ghost function SeenAfter(h: Handshake, seen: set<nat>, e: Event): set<nat>
  {
    if Ours(h, e) then seen + {IndexOf(h, e)} else seen
  }

  ghost predicate Brings(o: Outcome, h: Handshake) { o.Complete? && o.id == h.id }

  /** One step, exactly: the handshake is lost, or comes out, or holds one piece more. */
  lemma OneStep(t: Table, h: Handshake, seen: set<nat>, e: Event)
    requires Sent(h) && Tracks(t, h, seen) && Genuine(h, e)
    ensures var (t', o) := Step(t, e); var seen' := SeenAfter(h, seen, e);
      if Loses(t, h, seen, e) then Tracks(t', h, {}) && !Brings(o, h)
      else if AllSeen(|Parts(h)|, seen') then Tracks(t', h, {}) && o == (if |h.message| > MAX_MESSAGE then Refused else Complete(h.id, h.message))
      else Tracks(t', h, seen') && !Brings(o, h)
  {
    StepKeepsValid(t, e);
    NoneSeen(h);
    if Ours(h, e) {
      OursStep(t, h, seen, e);
    } else if e.Sweeping? {
      FindFilter(t, (x: Entry) => e.now <= x.createdAt + TIMEOUT, h.id);
    } else if Decode(e.buffer).Some? {
      OthersStep(t, h, e);
    }
  }

  lemma OursStep(t: Table, h: Handshake, seen: set<nat>, e: Event)
    requires Sent(h) && Tracks(t, h, seen) && Genuine(h, e) && Ours(h, e)
    ensures var (t', o) := Step(t, e); var seen' := seen + {IndexOf(h, e)};
      if IndexOf(h, e) in seen then Tracks(t', h, {}) && o == Refused
      else if AllSeen(|Parts(h)|, seen') then Tracks(t', h, {}) && o == (if |h.message| > MAX_MESSAGE then Refused else Complete(h.id, h.message))
      else Tracks(t', h, seen') && o == Buffered
  {
    GenuineFragment(h, e);
    NoneSeen(h);
    var i, f := IndexOf(h, e), Decode(e.buffer).value;
    if seen == {} {
      OpenKeepsValid(t, f, |e.buffer|, e.now);
      assert Nothing(f.count) == Held(Parts(h), seen);
      AbsorbNext(MakeRoom(t) + [Fresh(f, |e.buffer|, e.now)], h, seen, Fresh(f, |e.buffer|, e.now), f);
    } else if i in seen {
      RemoveKeepsValid(t, h.id);
      FindRemove(t, h.id, h.id);
    } else {
      AbsorbNext(t, h, seen, Find(t, h.id).value, f);
    }
  }

  /** A fragment of another handshake leaves ours alone unless it crowds it out. */
  lemma OthersStep(t: Table, h: Handshake, e: Event)
    requires Valid(t) && e.Arrival? && Decode(e.buffer).Some? && Decode(e.buffer).value.id != h.id
    ensures Find(Step(t, e).0, h.id) == if CrowdsOut(t, h, e) then None else Find(t, h.id)
    ensures !Brings(Step(t, e).1, h)
  {
    var f := Decode(e.buffer).value;
    if Find(t, f.id).Some? {
      AbsorbOthers(t, Find(t, f.id).value, f, |e.buffer|, h.id);
    } else {
      var entry := Fresh(f, |e.buffer|, e.now);
      OpenKeepsValid(t, f, |e.buffer|, e.now);
      AbsorbOthers(MakeRoom(t) + [entry], entry, f, |e.buffer|, h.id);
      FindAppend(MakeRoom(t), entry, h.id);
      if |t| >= MAX_PENDING { FindRemove(t, Oldest(t).id, h.id); }
    }
  }

  lemma AbsorbOthers(t: Table, e: Entry, f: Fragment, size: nat, id: HandshakeId)
    requires Valid(t) && WellFormed(f) && Find(t, f.id) == Some(e) && id != f.id
    ensures Find(Absorb(t, e, f, size).0, id) == Find(t, id)
    ensures var o := Absorb(t, e, f, size).1; o.Complete? ==> o.id == f.id
  {
    if |e.fragments| == f.count && e.size == size {
      if e.fragments[f.index].Some? { FindRemove(t, f.id, id); } else { FindStore(t, Added(e, f), id); }
    }
  }

  /** A fragment that claims another count, or comes in a buffer of another size, is refused and leaves everything
      as it is; so does whatever does not parse. */
  lemma MismatchIsRefused(t: Table, h: Handshake, seen: set<nat>, e: Event)
    requires Sent(h) && Tracks(t, h, seen) && seen != {} && e.Arrival?
    requires Ours(h, e) ==> Decode(e.buffer).value.count != |Parts(h)| || |e.buffer| != 8 + h.capacity
    requires !Ours(h, e) ==> Decode(e.buffer).None?
    ensures Step(t, e) == (t, Refused)
  {
  }

  /** The numbers: 16 handshakes, 30 seconds, 65536 bytes, 255 fragments, 8 bytes of header. */
  lemma Limits()
    ensures MAX_PENDING == 16 && TIMEOUT == 30 * 1000 && MAX_MESSAGE == 256 * 256 && MAX_FRAGMENTS == 255 && HEADER == 8
  {
  }

  // ----- Runs -----

  function Run(t: Table, events: seq<Event>): (r: (Table, seq<Outcome>))
    ensures |r.1| == |events|
    decreases |events|
  {
    if events == [] then (t, []) else
    var (next, o) := Step(t, events[0]);
    var (last, os) := Run(next, events[1..]);
    (last, [o] + os)
  }

  function Last(t: Table, events: seq<Event>): Outcome
    requires events != []
  {
    Run(t, events).1[|events| - 1]
  }

  lemma LastStep(t: Table, events: seq<Event>)
    requires events != []
    ensures Last(t, events) == if |events| == 1 then Step(t, events[0]).1 else Last(Step(t, events[0]).0, events[1..])
  {
  }

  ghost predicate AllGenuine(h: Handshake, events: seq<Event>)
    requires Sent(h)
  {
    forall i :: 0 <= i < |events| ==> Genuine(h, events[i])
  }

  /** From here on nothing is lost, and the last event is the first to leave no piece missing. */
  ghost predicate Steady(t: Table, h: Handshake, seen: set<nat>, events: seq<Event>)
    requires Sent(h)
    decreases |events|
  {
    && events != [] && !Loses(t, h, seen, events[0])
    && var seen' := SeenAfter(h, seen, events[0]);
      if |events| == 1 then AllSeen(|Parts(h)|, seen')
      else !AllSeen(|Parts(h)|, seen') && Steady(Step(t, events[0]).0, h, seen', events[1..])
  }

  /** At some point the handshake is not in progress, and from there on the run is steady. */
  ghost predicate Attempt(t: Table, h: Handshake, events: seq<Event>)
    requires Sent(h)
    decreases |events|
  {
    events != [] && ((Find(t, h.id).None? && Steady(t, h, {}, events)) || Attempt(Step(t, events[0]).0, h, events[1..]))
  }

  lemma {:induction false} LastExactly(t: Table, h: Handshake, seen: set<nat>, events: seq<Event>)
    requires Sent(h) && Tracks(t, h, seen) && events != [] && AllGenuine(h, events)
    ensures Last(t, events) == Complete(h.id, h.message)
       <==> |h.message| <= MAX_MESSAGE && (Steady(t, h, seen, events) || Attempt(Step(t, events[0]).0, h, events[1..]))
    ensures Brings(Last(t, events), h) ==> Last(t, events).message == h.message
    decreases |events|
  {
    var next, seen' := Step(t, events[0]).0, SeenAfter(h, seen, events[0]);
    OneStep(t, h, seen, events[0]);
    LastStep(t, events);
    if |events| > 1 {
      var lost := Loses(t, h, seen, events[0]) || AllSeen(|Parts(h)|, seen');
      LastExactly(next, h, if lost then {} else seen', events[1..]);
    }
  }

  /** For every run with anything else in it, in whatever order, with whatever repetitions: the message comes
      out at the end exactly if it is not too long and, from some point at which it is not in progress, every
      piece comes once and nothing takes the handshake away. No other message comes out under its id. */
  lemma ReassembledExactly(t: Table, h: Handshake, events: seq<Event>)
    requires Sent(h) && Valid(t) && Find(t, h.id).None? && events != [] && AllGenuine(h, events)
    ensures Last(t, events) == Complete(h.id, h.message) <==> |h.message| <= MAX_MESSAGE && Attempt(t, h, events)
    ensures Brings(Last(t, events), h) ==> Last(t, events).message == h.message
  {
    NoneSeen(h);
    LastExactly(t, h, {}, events);
  }

  // ----- Each piece once -----

  ghost predicate NoRepeat(h: Handshake, seen: set<nat>, events: seq<Event>)
    decreases |events|
  {
    events == [] || (!Repeats(h, seen, events[0]) && NoRepeat(h, SeenAfter(h, seen, events[0]), events[1..]))
  }

  /** The last event is the first to leave no piece missing. */
  ghost predicate CompletesLast(h: Handshake, seen: set<nat>, events: seq<Event>)
    requires Sent(h)
    decreases |events|
  {
    && events != []
    && var seen' := SeenAfter(h, seen, events[0]);
      if |events| == 1 then AllSeen(|Parts(h)|, seen') else !AllSeen(|Parts(h)|, seen') && CompletesLast(h, seen', events[1..])
  }

  /** While the handshake is in progress nothing crowds it out and no sweep finds it too old. */
  ghost predicate NeverTaken(t: Table, h: Handshake, seen: set<nat>, events: seq<Event>)
    decreases |events|
  {
    events == [] ||
    (!(seen != {} && (CrowdsOut(t, h, events[0]) || TimesOut(t, h, events[0])))
     && NeverTaken(Step(t, events[0]).0, h, SeenAfter(h, seen, events[0]), events[1..]))
  }

  lemma LosesIff(t: Table, h: Handshake, seen: set<nat>, e: Event)
    ensures Loses(t, h, seen, e) <==> Repeats(h, seen, e) || (seen != {} && (CrowdsOut(t, h, e) || TimesOut(t, h, e)))
  {
  }

  lemma {:induction false} SteadyIff(t: Table, h: Handshake, seen: set<nat>, events: seq<Event>)
    requires Sent(h) && events != []
    ensures Steady(t, h, seen, events) <==> CompletesLast(h, seen, events) && NoRepeat(h, seen, events) && NeverTaken(t, h, seen, events)
    decreases |events|
  {
    var next, seen', rest := Step(t, events[0]).0, SeenAfter(h, seen, events[0]), events[1..];
    LosesIff(t, h, seen, events[0]);
    if |events| > 1 {
      SteadyIff(next, h, seen', rest);
    } else {
      assert rest == [] && NoRepeat(h, seen', rest) && NeverTaken(next, h, seen', rest);
    }
  }

  ghost predicate Comes(h: Handshake, i: nat, events: seq<Event>)
  {
    exists k :: 0 <= k < |events| && Ours(h, events[k]) && IndexOf(h, events[k]) == i
  }

  lemma ComesNowOrLater(h: Handshake, i: nat, events: seq<Event>)
    requires Comes(h, i, events)
    ensures (Ours(h, events[0]) && IndexOf(h, events[0]) == i) || Comes(h, i, events[1..])
  {
    var k :| 0 <= k < |events| && Ours(h, events[k]) && IndexOf(h, events[k]) == i;
    if k > 0 { assert events[1..][k - 1] == events[k]; }
  }

  lemma {:induction false} SeenOnce(h: Handshake, seen: set<nat>, events: seq<Event>, i: nat)
    requires NoRepeat(h, seen, events) && i in seen
    ensures !Comes(h, i, events)
    decreases |events|
  {
    if events != [] {
      SeenOnce(h, SeenAfter(h, seen, events[0]), events[1..], i);
      if Comes(h, i, events) { ComesNowOrLater(h, i, events); }
    }
  }

  lemma {:induction false} SteadyCovers(t: Table, h: Handshake, seen: set<nat>, events: seq<Event>, i: nat)
    requires Sent(h) && Steady(t, h, seen, events) && i < |Parts(h)| && i !in seen
    ensures Comes(h, i, events)
    decreases |events|
  {
    if Ours(h, events[0]) && IndexOf(h, events[0]) == i {
    } else {
      SteadyCovers(Step(t, events[0]).0, h, SeenAfter(h, seen, events[0]), events[1..], i);
      ComesLater(h, i, events);
    }
  }

  lemma ComesLater(h: Handshake, i: nat, events: seq<Event>)
    requires events != [] && Comes(h, i, events[1..])
    ensures Comes(h, i, events)
  {
    var k :| 0 <= k < |events[1..]| && Ours(h, events[1..][k]) && IndexOf(h, events[1..][k]) == i;
    assert events[k + 1] == events[1..][k];
  }

  lemma {:induction false} AttemptCovers(t: Table, h: Handshake, events: seq<Event>, i: nat)
    requires Sent(h) && Attempt(t, h, events) && i < |Parts(h)|
    ensures Comes(h, i, events)
    decreases |events|
  {
    if Find(t, h.id).None? && Steady(t, h, {}, events) {
      SteadyCovers(t, h, {}, events, i);
    } else {
      AttemptCovers(Step(t, events[0]).0, h, events[1..], i);
      ComesLater(h, i, events);
    }
  }

  /** Without repetitions there is one attempt only. */
  lemma {:induction false} OneAttempt(t: Table, h: Handshake, events: seq<Event>)
    requires Sent(h) && Tracks(t, h, {}) && events != [] && AllGenuine(h, events) && NoRepeat(h, {}, events)
    ensures Attempt(t, h, events) <==> Steady(t, h, {}, events)
    decreases |events|
  {
    var e, next, rest := events[0], Step(t, events[0]).0, events[1..];
    OneStep(t, h, {}, e);
    if Ours(h, e) {
      GenuineFragment(h, e);
      SeenOnce(h, {} + {IndexOf(h, e)}, rest, IndexOf(h, e));
      if Attempt(next, h, rest) { AttemptCovers(next, h, rest, IndexOf(h, e)); }
    } else if rest != [] {
      OneAttempt(next, h, rest);
    }
  }

  /** The sender's fragments in any order, mixed with anything else, no index twice: the message comes out at
      its last missing index exactly if it has at most 65536 bytes and, while it was in progress, no opening of
      another handshake found the table full with ours the oldest and no sweep found ours too old. */
  lemma InAnyOrder(t: Table, h: Handshake, events: seq<Event>)
    requires Sent(h) && Valid(t) && Find(t, h.id).None? && AllGenuine(h, events)
    requires CompletesLast(h, {}, events) && NoRepeat(h, {}, events)
    ensures Last(t, events) == Complete(h.id, h.message) <==> |h.message| <= MAX_MESSAGE && NeverTaken(t, h, {}, events)
  {
    NoneSeen(h);
    ReassembledExactly(t, h, events);
    OneAttempt(t, h, events);
    SteadyIff(t, h, {}, events);
  }

  lemma NotBoth(n: nat, i: nat)
    requires n > 1
    ensures !AllSeen(n, {i})
  {
    var seen := {i};
    assert (if i == 0 then 1 else 0) !in seen;
  }

  lemma LostForGood(t: Table, h: Handshake, i: nat, again: Event, rest: seq<Event>)
    requires Sent(h) && Find(t, h.id).Some? && Ours(h, again) && IndexOf(h, again) == i < |Parts(h)|
    requires NoRepeat(h, {i}, rest)
    ensures !Attempt(t, h, [again] + rest) && !Steady(t, h, {i}, [again] + rest)
  {
    var events := [again] + rest;
    assert events[1..] == rest;
    assert Repeats(h, {i}, events[0]);
    SeenOnce(h, {i}, rest, i);
    if Attempt(Step(t, again).0, h, rest) { AttemptCovers(Step(t, again).0, h, rest, i); }
  }

  lemma FirstOpens(t: Table, h: Handshake, first: Event)
    requires Sent(h) && |Parts(h)| > 1 && Valid(t) && Find(t, h.id).None? && Genuine(h, first) && Ours(h, first)
    ensures IndexOf(h, first) < |Parts(h)| && !AllSeen(|Parts(h)|, {IndexOf(h, first)}) && Find(Step(t, first).0, h.id).Some?
  {
    NoneSeen(h);
    GenuineFragment(h, first);
    OursStep(t, h, {}, first);
    assert {} + {IndexOf(h, first)} == {IndexOf(h, first)};
    NotBoth(|Parts(h)|, IndexOf(h, first));
  }

  /** A repetition loses what had come: a fragment, the same again, and then every other one in any order is
      not enough for a message of two or more. */
  lemma RepetitionLoses(t: Table, h: Handshake, first: Event, again: Event, rest: seq<Event>)
    requires Sent(h) && |Parts(h)| > 1 && Valid(t) && Find(t, h.id).None? && AllGenuine(h, [first] + ([again] + rest))
    requires Ours(h, first) && Ours(h, again) && IndexOf(h, first) == IndexOf(h, again) && NoRepeat(h, {IndexOf(h, first)}, rest)
    ensures !Brings(Last(t, [first] + ([again] + rest)), h)
  {
    var events := [first] + ([again] + rest);
    assert Genuine(h, events[0]) && events[1..] == [again] + rest;
    FirstOpens(t, h, first);
    LostForGood(Step(t, first).0, h, IndexOf(h, first), again, rest);
    assert SeenAfter(h, {}, first) == {IndexOf(h, first)};
    ReassembledExactly(t, h, events);
  }

  // ----- How many newer handshakes it takes -----

  /** Age stamps do not fall along the table, and none lies ahead of the clock. */
  ghost predicate Aged(t: Table, clock: nat)
  {
    && (forall i, j :: 0 <= i < j < |t| ==> t[i].createdAt <= t[j].createdAt)
    && (forall i :: 0 <= i < |t| ==> t[i].createdAt <= clock)
  }

  ghost predicate Ordered(clock: nat, events: seq<Event>)
    decreases |events|
  {
    events == [] || (clock <= events[0].now && Ordered(events[0].now, events[1..]))
  }

  /** The entries that stand after the handshake's. */
  function Newer(t: Table, id: HandshakeId): nat
  {
    if t == [] then 0 else if t[0].id == id then |t| - 1 else Newer(t[1..], id)
  }

  lemma TailAged(t: Table, clock: nat)
    requires Aged(t, clock) && t != []
    ensures Aged(t[1..], clock) && forall e :: e in t[1..] ==> t[0].createdAt <= e.createdAt
  {
  }

  lemma AgedCons(e: Entry, rest: Table, clock: nat)
    requires Aged(rest, clock) && e.createdAt <= clock && forall x :: x in rest ==> e.createdAt <= x.createdAt
    ensures Aged([e] + rest, clock)
  {
    forall j | 0 <= j < |rest| ensures e.createdAt <= rest[j].createdAt { assert rest[j] in rest; }
  }

  lemma {:induction false} FilterAged(t: Table, keep: Entry -> bool, clock: nat)
    requires Aged(t, clock)
    ensures Aged(Filter(t, keep), clock)
  {
    if t != [] {
      var rest := Filter(t[1..], keep);
      TailAged(t, clock);
      FilterAged(t[1..], keep, clock);
      if keep(t[0]) { AgedCons(t[0], rest, clock); } else { assert [] + rest == rest; }
    }
  }

  lemma NewerCons(e: Entry, rest: Table, x: HandshakeId)
    ensures Newer([e] + rest, x) == if e.id == x then |rest| else Newer(rest, x)
  {
    assert ([e] + rest)[1..] == rest;
  }

  /** Filtering out others, or older ones, leaves no more entries after the handshake's. */
  lemma {:induction false} FilterNewer(t: Table, keep: Entry -> bool, x: HandshakeId)
    requires Find(t, x).Some? ==> keep(Find(t, x).value)
    ensures Newer(Filter(t, keep), x) <= Newer(t, x)
  {
    if t != [] {
      var rest := Filter(t[1..], keep);
      if t[0].id != x { FilterNewer(t[1..], keep, x); }
      NewerCons(t[0], rest, x);
      if !keep(t[0]) { assert [] + rest == rest; }
    }
  }

  lemma RemoveAged(t: Table, id: HandshakeId, x: HandshakeId, clock: nat)
    requires Aged(t, clock)
    ensures Aged(Remove(t, id), clock)
    ensures x != id ==> Newer(Remove(t, id), x) <= Newer(t, x)
  {
    FilterAged(t, (e: Entry) => e.id != id, clock);
    if x != id { FilterNewer(t, (e: Entry) => e.id != id, x); }
  }

  lemma {:induction false} UpdateNewer(t: Table, e: Entry, x: HandshakeId)
    ensures Newer(Update(t, e), x) == Newer(t, x)
  {
    if t != [] { UpdateNewer(t[1..], e, x); }
  }

  lemma UpdateAged(t: Table, e: Entry, clock: nat)
    requires Unique(t) && Aged(t, clock) && Find(t, e.id).Some? && Find(t, e.id).value.createdAt == e.createdAt
    ensures Aged(Update(t, e), clock)
  {
    forall i | 0 <= i < |t| && t[i].id == e.id ensures t[i].createdAt == e.createdAt { FindIs(t, t[i]); }
    assert forall i :: 0 <= i < |t| ==> Update(t, e)[i].createdAt == t[i].createdAt;
  }

  lemma {:induction false} AppendNewer(t: Table, e: Entry, x: HandshakeId)
    requires e.id != x
    ensures Newer(t + [e], x) == if Find(t, x).Some? then Newer(t, x) + 1 else 0
  {
    if t == [] {
      assert [] + [e] == [e] && [e][1..] == [];
    } else {
      assert (t + [e])[1..] == t[1..] + [e];
      AppendNewer(t[1..], e, x);
    }
  }

  lemma {:induction false} LastNewer(t: Table, e: Entry)
    requires Find(t, e.id).None?
    ensures Newer(t + [e], e.id) == 0
  {
    if t == [] {
      assert [] + [e] == [e];
    } else {
      assert (t + [e])[1..] == t[1..] + [e];
      LastNewer(t[1..], e);
    }
  }

  lemma {:induction false} OldestFirst(t: Table, clock: nat)
    requires Aged(t, clock) && t != []
    ensures Oldest(t) == t[0]
  {
    if |t| > 1 { OldestFirst(t[1..], clock); }
  }

  lemma {:induction false} FilterAll(t: Table, keep: Entry -> bool)
    requires forall e :: e in t ==> keep(e)
    ensures Filter(t, keep) == t
  {
    if t != [] { FilterAll(t[1..], keep); }
  }

  lemma RemoveFirst(t: Table)
    requires Unique(t) && t != []
    ensures Remove(t, t[0].id) == t[1..]
  {
    FilterAll(t[1..], (e: Entry) => e.id != t[0].id);
  }

  lemma {:induction false} DropFirst(t: Table, x: HandshakeId)
    requires t != [] && t[0].id != x
    ensures Newer(t[1..], x) == Newer(t, x) && Find(t[1..], x) == Find(t, x)
  {
  }

  lemma RoomAged(t: Table, x: HandshakeId, clock: nat)
    requires Valid(t) && Aged(t, clock) && (|t| >= MAX_PENDING ==> Oldest(t).id != x)
    ensures Aged(MakeRoom(t), clock) && Newer(MakeRoom(t), x) == Newer(t, x) && Find(MakeRoom(t), x) == Find(t, x)
  {
    if |t| >= MAX_PENDING {
      OldestFirst(t, clock);
      RemoveFirst(t);
      DropFirst(t, x);
      TailAged(t, clock);
    }
  }

  /** The event opens another handshake. */
  ghost predicate Opens(t: Table, h: Handshake, e: Event)
  {
    e.Arrival? && Decode(e.buffer).Some? && Decode(e.buffer).value.id != h.id && Find(t, Decode(e.buffer).value.id).None?
  }

  lemma StoreAged(t: Table, e: Entry, x: HandshakeId, clock: nat)
    requires Unique(t) && Aged(t, clock) && Find(t, e.id).Some? && Find(t, e.id).value.createdAt == e.createdAt
    ensures Aged(Store(t, e).0, clock)
    ensures x != e.id ==> Newer(Store(t, e).0, x) <= Newer(t, x)
    ensures Store(t, e).1.Buffered? ==> Newer(Store(t, e).0, x) == Newer(t, x)
  {
    if e.received < |e.fragments| {
      UpdateNewer(t, e, x);
      UpdateAged(t, e, clock);
    } else {
      RemoveAged(t, e.id, x, clock);
    }
  }

  lemma AbsorbAged(t: Table, e: Entry, f: Fragment, size: nat, x: HandshakeId, clock: nat)
    requires Valid(t) && Aged(t, clock) && WellFormed(f) && Find(t, f.id) == Some(e)
    ensures Aged(Absorb(t, e, f, size).0, clock)
    ensures x != f.id ==> Newer(Absorb(t, e, f, size).0, x) <= Newer(t, x)
    ensures Absorb(t, e, f, size).1.Buffered? ==> Newer(Absorb(t, e, f, size).0, x) == Newer(t, x)
  {
    if |e.fragments| == f.count && e.size == size {
      if e.fragments[f.index].Some? { RemoveAged(t, f.id, x, clock); } else { StoreAged(t, Added(e, f), x, clock); }
    }
  }

  lemma AppendAged(t: Table, e: Entry, clock: nat)
    requires Aged(t, clock) && clock <= e.createdAt
    ensures Aged(t + [e], e.createdAt)
  {
  }

  /** What one step does to the number of newer entries. */
  lemma StepNewer(t: Table, h: Handshake, e: Event, clock: nat)
    requires Valid(t) && Aged(t, clock) && clock <= e.now && !CrowdsOut(t, h, e) && !TimesOut(t, h, e)
    ensures Aged(Step(t, e).0, e.now)
    ensures Find(Step(t, e).0, h.id).Some? ==>
      Newer(Step(t, e).0, h.id) <= (if Find(t, h.id).Some? then Newer(t, h.id) else 0) + if Opens(t, h, e) then 1 else 0
  {
    if e.Sweeping? {
      FilterAged(t, (x: Entry) => e.now <= x.createdAt + TIMEOUT, clock);
      FilterNewer(t, (x: Entry) => e.now <= x.createdAt + TIMEOUT, h.id);
      FindFilter(t, (x: Entry) => e.now <= x.createdAt + TIMEOUT, h.id);
    } else if Decode(e.buffer).Some? {
      var f := Decode(e.buffer).value;
      if Find(t, f.id).Some? {
        KnownNewer(t, h, e, clock);
      } else {
        OpeningNewer(t, h, e, clock);
      }
    }
  }

  lemma KnownNewer(t: Table, h: Handshake, e: Event, clock: nat)
    requires Valid(t) && Aged(t, clock) && clock <= e.now && e.Arrival? && Decode(e.buffer).Some?
    requires Find(t, Decode(e.buffer).value.id).Some?
    ensures Aged(Step(t, e).0, e.now)
    ensures Find(Step(t, e).0, h.id).Some? ==> Find(t, h.id).Some? && Newer(Step(t, e).0, h.id) <= Newer(t, h.id)
  {
    var f := Decode(e.buffer).value;
    var entry := Find(t, f.id).value;
    AbsorbAged(t, entry, f, |e.buffer|, h.id, clock);
    if f.id != h.id { AbsorbOthers(t, entry, f, |e.buffer|, h.id); } else { AbsorbOwn(t, entry, f, |e.buffer|, clock); }
  }

  /** A handshake's own fragment ends it or leaves it where it stands. */
  lemma AbsorbOwn(t: Table, e: Entry, f: Fragment, size: nat, clock: nat)
    requires Valid(t) && Aged(t, clock) && WellFormed(f) && Find(t, f.id) == Some(e)
    ensures var (t', o) := Absorb(t, e, f, size); Find(t', f.id).Some? ==> Newer(t', f.id) == Newer(t, f.id)
  {
    if |e.fragments| == f.count && e.size == size {
      if e.fragments[f.index].Some? {
        FindRemove(t, f.id, f.id);
      } else {
        FindStore(t, Added(e, f), f.id);
        StoreAged(t, Added(e, f), f.id, clock);
      }
    }
  }

  lemma OpeningNewer(t: Table, h: Handshake, e: Event, clock: nat)
    requires Valid(t) && Aged(t, clock) && clock <= e.now && e.Arrival? && Decode(e.buffer).Some?
    requires Find(t, Decode(e.buffer).value.id).None? && !CrowdsOut(t, h, e)
    ensures Aged(Step(t, e).0, e.now)
    ensures var f, n := Decode(e.buffer).value, Newer(Step(t, e).0, h.id);
      if f.id == h.id then Find(Step(t, e).0, h.id).Some? ==> n == 0
      else Find(Step(t, e).0, h.id).Some? ==> Find(t, h.id).Some? && n <= Newer(t, h.id) + 1
    ensures var f := Decode(e.buffer).value;
      f.id != h.id && f.count > 1 && Find(t, h.id).Some? ==> Newer(Step(t, e).0, h.id) == Newer(t, h.id) + 1
  {
    var f := Decode(e.buffer).value;
    var entry, room := Fresh(f, |e.buffer|, e.now), MakeRoom(t);
    OpenKeepsValid(t, f, |e.buffer|, e.now);
    RoomAged(t, h.id, clock);
    AppendAged(room, entry, clock);
    AbsorbAged(room + [entry], entry, f, |e.buffer|, h.id, e.now);
    if f.id == h.id {
      LastNewer(room, entry);
      OpenedAlone(room + [entry], entry, f, |e.buffer|);
    } else {
      AppendNewer(room, entry, h.id);
      AbsorbOthers(room + [entry], entry, f, |e.buffer|, h.id);
      FindAppend(room, entry, h.id);
    }
  }

  /** The first fragment is stored, or is the whole message. */
  lemma OpenedAlone(t: Table, e: Entry, f: Fragment, size: nat)
    requires Valid(t) && WellFormed(f) && Find(t, f.id) == Some(e) && e.size == size && e.fragments == Nothing(f.count) && EntryOk(e)
    ensures var (t', o) := Absorb(t, e, f, size); if f.count > 1 then o == Buffered else Find(t', f.id).None?
  {
    CountAll(e.fragments);
    FindRemove(t, f.id, f.id);
  }

  // ----- Results on openings -----

  function Plus(b: bool): nat { if b then 1 else 0 }

  /** How many events of the run open another handshake. */
  ghost function Openings(t: Table, h: Handshake, events: seq<Event>): nat
    decreases |events|
  {
    if events == [] then 0 else Plus(Opens(t, h, events[0])) + Openings(Step(t, events[0]).0, h, events[1..])
  }

  ghost predicate NeverTimesOut(t: Table, h: Handshake, events: seq<Event>)
    decreases |events|
  {
    events == [] || (!TimesOut(t, h, events[0]) && NeverTimesOut(Step(t, events[0]).0, h, events[1..]))
  }

  lemma {:induction false} NewerBelow(t: Table, id: HandshakeId)
    requires Find(t, id).Some?
    ensures Newer(t, id) < |t| && (t[0].id == id ==> Newer(t, id) == |t| - 1)
  {
    if t[0].id != id { NewerBelow(t[1..], id); }
  }

  lemma OursIsFirst(t: Table, h: Handshake, e: Event, clock: nat)
    requires Aged(t, clock) && CrowdsOut(t, h, e)
    ensures Find(t, h.id).Some? && Newer(t, h.id) >= MAX_PENDING - 1 && (Valid(t) ==> Opens(t, h, e))
  {
    OldestFirst(t, clock);
    assert t[0] in t;
    NewerBelow(t, h.id);
  }

  /** With fewer than 16 openings of other handshakes nothing crowds ours out. */
  lemma {:induction false} FewOpeningsKeep(t: Table, h: Handshake, seen: set<nat>, events: seq<Event>, clock: nat)
    requires Valid(t) && Aged(t, clock) && Ordered(clock, events) && NeverTimesOut(t, h, events)
    requires Openings(t, h, events) + (if Find(t, h.id).Some? then Newer(t, h.id) else 0) < MAX_PENDING
    ensures NeverTaken(t, h, seen, events)
    decreases |events|
  {
    if events != [] {
      var e, next := events[0], Step(t, events[0]).0;
      if CrowdsOut(t, h, e) { OursIsFirst(t, h, e, clock); }
      StepKeepsValid(t, e);
      StepNewer(t, h, e, clock);
      FewOpeningsKeep(next, h, SeenAfter(h, seen, e), events[1..], e.now);
    }
  }

  /** Every event opens another handshake, of more than one fragment. */
  ghost predicate AllOpen(t: Table, h: Handshake, events: seq<Event>)
    decreases |events|
  {
    events == [] || (Opens(t, h, events[0]) && Decode(events[0].buffer).value.count > 1 && AllOpen(Step(t, events[0]).0, h, events[1..]))
  }

  lemma OpeningKept(t: Table, h: Handshake, e: Event, clock: nat)
    requires Valid(t) && Aged(t, clock) && clock <= e.now && Find(t, h.id).Some? && !CrowdsOut(t, h, e)
    requires Opens(t, h, e) && Decode(e.buffer).value.count > 1
    ensures var next := Step(t, e).0; Valid(next) && Aged(next, e.now) && Find(next, h.id).Some? && Newer(next, h.id) == Newer(t, h.id) + 1
    ensures forall seen :: SeenAfter(h, seen, e) == seen
  {
    StepKeepsValid(t, e);
    OpeningNewer(t, h, e, clock);
    OthersStep(t, h, e);
  }

  ghost predicate InARow(t: Table, h: Handshake, events: seq<Event>, clock: nat)
  {
    Valid(t) && Aged(t, clock) && Ordered(clock, events) && AllOpen(t, h, events) && Find(t, h.id).Some?
  }

  lemma RowStep(t: Table, h: Handshake, seen: set<nat>, events: seq<Event>, clock: nat)
    requires InARow(t, h, events, clock) && events != [] && seen != {} && !CrowdsOut(t, h, events[0])
    ensures var next := Step(t, events[0]).0;
      && InARow(next, h, events[1..], events[0].now) && Newer(next, h.id) == Newer(t, h.id) + 1
      && (NeverTaken(t, h, seen, events) <==> NeverTaken(next, h, seen, events[1..]))
  {
    OpeningKept(t, h, events[0], clock);
  }

  lemma RowEnds(t: Table, h: Handshake, seen: set<nat>, events: seq<Event>, clock: nat)
    requires InARow(t, h, events, clock) && events != [] && seen != {} && CrowdsOut(t, h, events[0])
    ensures !NeverTaken(t, h, seen, events) && Newer(t, h.id) + |events| >= MAX_PENDING
  {
    OursIsFirst(t, h, events[0], clock);
  }

  /** 16 is exact: in a row of openings the handshake is kept exactly while the newer ones are fewer. */
  lemma {:induction false} SixteenNewerIff(t: Table, h: Handshake, seen: set<nat>, events: seq<Event>, clock: nat)
    requires InARow(t, h, events, clock) && seen != {}
    ensures NeverTaken(t, h, seen, events) <==> Newer(t, h.id) + |events| < MAX_PENDING
    decreases |events|
  {
    if events == [] {
      NewerBelow(t, h.id);
    } else if CrowdsOut(t, h, events[0]) {
      RowEnds(t, h, seen, events, clock);
    } else {
      RowStep(t, h, seen, events, clock);
      SixteenNewerIff(Step(t, events[0]).0, h, seen, events[1..], events[0].now);
    }
  }

  // ----- The reassembler -----

  lemma OldestSnoc(t: Table, e: Entry)
    requires t != []
    ensures Oldest(t + [e]) == if e.createdAt < Oldest(t).createdAt then e else Oldest(t)
  {
    if |t| == 1 {
      assert (t + [e])[1..] == [e];
    } else {
      assert (t + [e])[1..] == t[1..] + [e];
      OldestSnoc(t[1..], e);
    }
  }

  lemma {:induction false} FilterSnoc(t: Table, e: Entry, keep: Entry -> bool)
    ensures Filter(t + [e], keep) == Filter(t, keep) + if keep(e) then [e] else []
  {
    if t == [] {
      assert [] + [e] == [e];
      FilterCons([e], keep);
    } else {
      assert (t + [e])[1..] == t[1..] + [e];
      FilterCons(t + [e], keep);
      FilterSnoc(t[1..], e, keep);
      Associate(if keep(t[0]) then [t[0]] else [], Filter(t[1..], keep), if keep(e) then [e] else []);
    }
  }

  lemma FilterCons(t: Table, keep: Entry -> bool)
    requires t != []
    ensures Filter(t, keep) == (if keep(t[0]) then [t[0]] else []) + Filter(t[1..], keep)
  {
  }

  lemma FilterPrefix(t: Table, i: nat, keep: Entry -> bool)
    requires i < |t|
    ensures Filter(t[..i + 1], keep) == Filter(t[..i], keep) + if keep(t[i]) then [t[i]] else []
  {
    assert t[..i + 1] == t[..i] + [t[i]];
    FilterSnoc(t[..i], t[i], keep);
  }

  lemma OldestPrefix(t: Table, i: nat)
    requires 0 < i < |t|
    ensures Oldest(t[..i + 1]) == if t[i].createdAt < Oldest(t[..i]).createdAt then t[i] else Oldest(t[..i])
  {
    assert t[..i + 1] == t[..i] + [t[i]];
    OldestSnoc(t[..i], t[i]);
  }

  class Reassembler {
    var inFlight: Table

    constructor ()
      ensures inFlight == [] && Valid(inFlight)
    {
      inFlight := [];
    }

    /** The key of the oldest entry. */
    method OldestKey() returns (key: HandshakeId)
      requires inFlight != []
      ensures key == Oldest(inFlight).id
    {
      var t := inFlight;
      var at := t[0].createdAt;
      key := t[0].id;
      for i := 1 to |t|
        invariant key == Oldest(t[..i]).id && at == Oldest(t[..i]).createdAt
      {
        OldestPrefix(t, i);
        if t[i].createdAt < at { at, key := t[i].createdAt, t[i].id; }
      }
      assert t[..|t|] == t;
    }

    method Join(fragments: seq<Option<seq<byte>>>) returns (message: seq<byte>)
      ensures message == Assemble(fragments)
    {
      message := [];
      for i := 0 to |fragments|
        invariant message == Assemble(fragments[..i])
      {
        assert fragments[..i + 1][..i] == fragments[..i];
        message := message + match fragments[i] case None => [] case Some(data) => data;
      }
      assert fragments[..|fragments|] == fragments;
    }

    method IngestBuffer(buffer: seq<byte>, now: nat) returns (o: Outcome)
      requires Valid(inFlight)
      modifies this
      ensures Valid(inFlight) && (inFlight, o) == Step(old(inFlight), Arrival(buffer, now))
    {
      StepKeepsValid(inFlight, Arrival(buffer, now));
      var decoded := Decode(buffer);
      if decoded.None? { return Refused; }
      var f := decoded.value;
      var found := Find(inFlight, f.id);
      var entry;
      if found.Some? {
        entry := found.value;
      } else {
        if |inFlight| >= MAX_PENDING {
          var key := OldestKey();
          inFlight := Remove(inFlight, key);
        }
        entry := Fresh(f, |buffer|, now);
        inFlight := inFlight + [entry];
      }
      if |entry.fragments| != f.count || entry.size != |buffer| { return Refused; }
      if entry.fragments[f.index].Some? {
        inFlight := Remove(inFlight, f.id);
        return Refused;
      }
      entry := Added(entry, f);
      if entry.received < |entry.fragments| {
        inFlight := Update(inFlight, entry);
        return Buffered;
      }
      var message := Join(entry.fragments);
      inFlight := Remove(inFlight, f.id);
      o := if |message| > MAX_MESSAGE then Refused else Complete(f.id, message);
    }

    method SweepOld(now: nat) returns (dropped: nat)
      requires Valid(inFlight)
      modifies this
      ensures Valid(inFlight) && inFlight == Sweep(old(inFlight), now) && dropped == |old(inFlight)| - |inFlight|
    {
      StepKeepsValid(inFlight, Sweeping(now));
      var young := Young(inFlight, now);
      dropped := |inFlight| - |young|;
      inFlight := young;
    }

    method Young(t: Table, now: nat) returns (kept: Table)
      ensures kept == Sweep(t, now)
    {
      ghost var young := (e: Entry) => now <= e.createdAt + TIMEOUT;
      kept := [];
      for i := 0 to |t|
        invariant kept == Filter(t[..i], young)
      {
        FilterPrefix(t, i, young);
        if now <= t[i].createdAt + TIMEOUT { kept := kept + [t[i]]; }
      }
      assert t[..|t|] == t;
    }
  }
}
