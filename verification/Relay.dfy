/** RELAY cells: layered encryption, counter nonces and the running digest, in both directions.

    Every hop of a circuit is known by two ends per direction: the client's copy and the hop's own
    copy. The side that wraps a cell and the side that peels it must never fall out of step.
 */
module Relay {
  import opened Bytes

  const CELL_PAYLOAD: nat := 508
  const RELAY_HEADER: nat := 9
  const MAX_RELAY_DATA: nat := 499
  const COUNTER_LIMIT: nat := 0x1_0000_0000_0000_0000

  type Payload = p: seq<byte> | |p| == CELL_PAYLOAD witness Zeros(CELL_PAYLOAD)
  type Digest = d: seq<byte> | |d| == 32 witness Zeros(32)
  type Counter = n: nat | n < COUNTER_LIMIT
  type StreamId = n: nat | n < 0x1_0000

  /** ChaCha20 as a key stream for a key and a nonce, BLAKE2b as a function of all bytes absorbed. */
  datatype Crypto = Crypto(chacha20: (seq<byte>, seq<byte>) -> Payload, blake2b: seq<byte> -> Digest)

  /** One direction at one hop: session key, cell counter, and the bytes the digest has absorbed. */
  datatype End = End(key: seq<byte>, counter: Counter, absorbed: seq<byte>)

  datatype Cell = Cell(command: byte, stream: StreamId, data: seq<byte>)

  type RelayCell = c: Cell | |c.data| <= MAX_RELAY_DATA witness Cell(0, 0, [])

  function Fresh(key: seq<byte>, digestKey: seq<byte>): End { End(key, 0, digestKey) }

  // ----- Payload codec -----

  /** The cell with its digest field zero: what the running digest absorbs. */
  function Unsigned(cell: RelayCell): Payload
  {
    [cell.command] + BigEndian(cell.stream, 2) + Zeros(4) + BigEndian(|cell.data|, 2)
    + cell.data + Zeros(MAX_RELAY_DATA - |cell.data|)
  }

  function Zeroed(p: Payload): Payload { p[..3] + Zeros(4) + p[7..] }

  function DigestOf(c: Crypto, absorbed: seq<byte>, p: Payload): (d: seq<byte>)
    ensures |d| == 4
  {
    c.blake2b(absorbed + Zeroed(p))[..4]
  }

  function Signed(c: Crypto, e: End, cell: RelayCell): Payload
  {
    var z := Unsigned(cell);
    z[..3] + DigestOf(c, e.absorbed, z) + z[7..]
  }

  function Parse(p: Payload): Option<RelayCell>
  {
    var length := FromBigEndian(p[7..9]);
    if length > MAX_RELAY_DATA || p[9 + length..] != Zeros(MAX_RELAY_DATA - length) then
      None
    else
      FieldSizes();
      Some(Cell(p[0], FromBigEndian(p[1..3]), p[9..9 + length]))
  }

  predicate Recognizes(c: Crypto, e: End, p: Payload) { p[3..7] == DigestOf(c, e.absorbed, p) }

  lemma UnsignedFields(cell: RelayCell)
    ensures var z := Unsigned(cell);
      && z[..3] == [cell.command] + BigEndian(cell.stream, 2)
      && z[3..7] == Zeros(4)
      && z[7..] == BigEndian(|cell.data|, 2) + cell.data + Zeros(MAX_RELAY_DATA - |cell.data|)
      && Zeroed(z) == z
  {
    var front, tail := [cell.command] + BigEndian(cell.stream, 2), BigEndian(|cell.data|, 2) + cell.data + Zeros(MAX_RELAY_DATA - |cell.data|);
    assert Unsigned(cell) == front + Zeros(4) + tail;
  }

  /** A signed cell is recognized by the end it was signed for and parses back to the client's cell. */
  lemma SignedIsRecognized(c: Crypto, e: End, cell: RelayCell)
    ensures Zeroed(Signed(c, e, cell)) == Unsigned(cell)
    ensures Recognizes(c, e, Signed(c, e, cell))
    ensures Parse(Signed(c, e, cell)) == Some(cell)
  {
    var z, p := Unsigned(cell), Signed(c, e, cell);
    UnsignedFields(cell);
    assert p[..3] == z[..3] && p[7..] == z[7..] && p[3..7] == DigestOf(c, e.absorbed, z);
    assert Zeroed(p) == z[..3] + z[3..7] + z[7..] == z;
    FieldSizes();
    BigEndianRoundTrip(cell.stream, 2);
    BigEndianRoundTrip(|cell.data|, 2);
    assert p[7..9] == p[7..][..2] == BigEndian(|cell.data|, 2);
    assert p[1..3] == p[..3][1..] == BigEndian(cell.stream, 2);
    assert p[0] == p[..3][0];
    assert p[9..9 + |cell.data|] == p[7..][2..2 + |cell.data|] == cell.data;
    assert p[9 + |cell.data|..] == p[7..][2 + |cell.data|..] == Zeros(MAX_RELAY_DATA - |cell.data|);
  }

  /** Whatever parses is, digest aside, exactly the encoding of what it parses to. */
  lemma ParsedIsCanonical(p: Payload)
    requires Parse(p).Some?
    ensures Zeroed(p) == Unsigned(Parse(p).value)
  {
    var cell := Parse(p).value;
    var length := FromBigEndian(p[7..9]);
    FromBigEndianRoundTrip(p[1..3]);
    FromBigEndianRoundTrip(p[7..9]);
    assert p[..3] == [p[0]] + p[1..3];
    assert p[7..] == p[7..9] + p[9..9 + length] + p[9 + length..];
    UnsignedFields(cell);
    assert Unsigned(cell) == Unsigned(cell)[..3] + Unsigned(cell)[3..7] + Unsigned(cell)[7..];
  }

  /** The layout, on the published DATA cell of stream 17 that carries "hello". */
  lemma HelloVector(c: Crypto, e: End)
    ensures var cell := Cell(0x01, 17, [0x68, 0x65, 0x6C, 0x6C, 0x6F]);
      Signed(c, e, cell) == [0x01, 0x00, 0x11] + DigestOf(c, e.absorbed, Unsigned(cell)) + [0x00, 0x05] + cell.data + Zeros(494)
  {
    var cell := Cell(0x01, 17, [0x68, 0x65, 0x6C, 0x6C, 0x6F]);
    UnsignedFields(cell);
    TwoBytes(17);
    TwoBytes(5);
  }

  /** A cell's bytes before its digest is put in: command, stream, four zeros, length, data, zeros. */
  lemma CellLayout(cell: RelayCell)
    ensures var z := Unsigned(cell);
      && z[0] == cell.command && FromBigEndian(z[1..3]) == cell.stream && z[3..7] == [0, 0, 0, 0]
      && FromBigEndian(z[7..9]) == |cell.data| && z[9..9 + |cell.data|] == cell.data
      && z[9 + |cell.data|..] == Zeros(499 - |cell.data|)
  {
    var z := Unsigned(cell);
    UnsignedFields(cell);
    FieldSizes();
    BigEndianRoundTrip(cell.stream, 2);
    BigEndianRoundTrip(|cell.data|, 2);
    assert z[0] == z[..3][0] && z[1..3] == z[..3][1..] == BigEndian(cell.stream, 2);
    assert Zeros(4) == [0, 0, 0, 0];
    assert z[7..9] == z[7..][..2] == BigEndian(|cell.data|, 2);
    assert z[9..9 + |cell.data|] == z[7..][2..2 + |cell.data|] == cell.data;
    assert z[9 + |cell.data|..] == z[7..][2 + |cell.data|..];
  }

  // ----- One layer -----

  function Nonce(n: Counter): seq<byte> { BigEndian(n, 8) + Zeros(8) }

  function Layer(c: Crypto, e: End, p: Payload): Payload { XorSeq(p, c.chacha20(e.key, Nonce(e.counter))) }

  /** The nonce of a layer: the counter in eight bytes, most significant first, and eight zeros. */
  ghost predicate IsNonce(iv: seq<byte>, counter: Counter)
  {
    |iv| == 16 && FromBigEndian(iv[..8]) == counter && iv[8..] == Zeros(8)
  }

  /** A layer is the exclusive or with the key stream for the key and the counter's nonce, bit by bit; so what
      it makes of zeros is the key stream. */
  lemma LayerIsKeyStream(c: Crypto, e: End, p: Payload, iv: seq<byte>, j: nat, k: nat)
    requires IsNonce(iv, e.counter) && j < CELL_PAYLOAD && k < 8
    ensures Bit(Layer(c, e, p)[j], k) <==> Bit(p[j], k) != Bit(c.chacha20(e.key, iv)[j], k)
    ensures Layer(c, e, Zeros(CELL_PAYLOAD)) == c.chacha20(e.key, iv)
  {
    OneNonce(iv, e.counter);
    var stream := c.chacha20(e.key, iv);
    XorBit(p[j], stream[j], k);
    forall i | 0 <= i < CELL_PAYLOAD ensures Xor(0, stream[i]) == stream[i] { XorZero(stream[i]); }
  }

  lemma OneNonce(iv: seq<byte>, counter: Counter)
    requires IsNonce(iv, counter)
    ensures iv == Nonce(counter)
  {
    FromBigEndianRoundTrip(iv[..8]);
    TakeDrop(iv, 8);
  }

  lemma NonceIsNonce(counter: Counter)
    ensures IsNonce(Nonce(counter), counter)
  {
    FieldSizes();
    BigEndianRoundTrip(counter, 8);
    assert Nonce(counter)[..8] == BigEndian(counter, 8);
  }

  /** The counter after `n` more cells. */
  function Later(start: Counter, n: nat): Counter { (start + n) % COUNTER_LIMIT }

  function Tick(e: End): End { e.(counter := Later(e.counter, 1)) }

  function Absorb(e: End, p: Payload): End { e.(absorbed := e.absorbed + Zeroed(p)) }

  lemma PeelUndoesLayer(c: Crypto, e: End, p: Payload)
    ensures Layer(c, e, Layer(c, e, p)) == p
  {
    XorSeqCancels(p, c.chacha20(e.key, Nonce(e.counter)));
  }

  // ----- Wrapping for all hops -----

  /** `p` under the layers of hops `i` and on, hop `i` outermost. */
  function Onion(c: Crypto, ends: seq<End>, i: nat, p: Payload): Payload
    decreases |ends| - i
  {
    if i >= |ends| then p else Layer(c, ends[i], Onion(c, ends, i + 1, p))
  }

  /** All layers from hop `i` on taken off. */
  function PeelAll(c: Crypto, ends: seq<End>, i: nat, wire: Payload): Payload
    decreases |ends| - i
  {
    if i >= |ends| then wire else PeelAll(c, ends, i + 1, Layer(c, ends[i], wire))
  }

  lemma {:induction false} PeelAllUndoesOnion(c: Crypto, ends: seq<End>, i: nat, p: Payload)
    ensures PeelAll(c, ends, i, Onion(c, ends, i, p)) == p
    decreases |ends| - i
  {
    if i < |ends| {
      PeelUndoesLayer(c, ends[i], Onion(c, ends, i + 1, p));
      PeelAllUndoesOnion(c, ends, i + 1, p);
    }
  }

  /** Every end after one more cell. */
  function TickAll(ends: seq<End>): (r: seq<End>)
    ensures |r| == |ends|
  {
    seq(|ends|, i requires 0 <= i < |ends| => Tick(ends[i]))
  }

  /** Hop `k` absorbs the cell and every end counts it. */
  function Advance(ends: seq<End>, k: nat, p: Payload): (r: seq<End>)
    requires k < |ends|
    ensures |r| == |ends|
  {
    TickAll(ends[k := Absorb(ends[k], p)])
  }

  /** Bit `k` of byte `j` of the key streams of hops `i` and on, at their counters, one over the other. */
  function Streams(c: Crypto, ends: seq<End>, i: nat, j: nat, k: nat): bool
    requires j < CELL_PAYLOAD && k < 8
    decreases |ends| - i
  {
    i < |ends| && Bit(c.chacha20(ends[i].key, Nonce(ends[i].counter))[j], k) != Streams(c, ends, i + 1, j, k)
  }

  lemma {:induction false} OnionIsStreams(c: Crypto, ends: seq<End>, i: nat, p: Payload, j: nat, k: nat)
    requires j < CELL_PAYLOAD && k < 8
    ensures Bit(Onion(c, ends, i, p)[j], k) <==> Bit(p[j], k) != Streams(c, ends, i, j, k)
    decreases |ends| - i
  {
    if i < |ends| {
      OnionIsStreams(c, ends, i + 1, p, j, k);
      NonceIsNonce(ends[i].counter);
      LayerIsKeyStream(c, ends[i], Onion(c, ends, i + 1, p), Nonce(ends[i].counter), j, k);
    }
  }

  /** What an end has absorbed does not touch its layer. */
  lemma {:induction false} OnionIgnoresDigests(c: Crypto, ends: seq<End>, k: nat, q: Payload, i: nat, p: Payload)
    requires k < |ends|
    ensures Onion(c, ends[k := Absorb(ends[k], q)], i, p) == Onion(c, ends, i, p)
    decreases |ends| - i
  {
    if i < |ends| { OnionIgnoresDigests(c, ends, k, q, i + 1, p); }
  }

  ghost predicate UnderStreams(c: Crypto, ends: seq<End>, p: Payload, wire: Payload)
  {
    forall j, k :: 0 <= j < CELL_PAYLOAD && 0 <= k < 8 ==> (Bit(wire[j], k) <==> Bit(p[j], k) != Streams(c, ends, 0, j, k))
  }

  /** What goes out is the cell under the key streams of all hops at their counters. */
  lemma WireIsStreams(c: Crypto, ends: seq<End>, p: Payload)
    ensures UnderStreams(c, ends, p, Onion(c, ends, 0, p))
  {
    forall j, k | 0 <= j < CELL_PAYLOAD && 0 <= k < 8 ensures Bit(Onion(c, ends, 0, p)[j], k) <==> Bit(p[j], k) != Streams(c, ends, 0, j, k) {
      OnionIsStreams(c, ends, 0, p, j, k);
    }
  }

  // ----- The receiving sides -----

  datatype Verdict = Deliver(payload: Payload) | Malformed | Forward(payload: Payload)

  /** A hop peels its layer and compares digests. The speculative update is kept on a match only; a match
      that does not parse destroys the circuit. */
  function Peel(c: Crypto, e: End, wire: Payload): (End, Verdict)
  {
    var p := Layer(c, e, wire);
    if !Recognizes(c, e, p) then (Tick(e), Forward(p))
    else (Tick(Absorb(e, p)), if Parse(p).Some? then Deliver(p) else Malformed)
  }

  datatype Outcome = DeliveredAt(hop: nat, payload: Payload) | Broken(hop: nat) | Lost | Extended

  /** The wire payload passes hop `i` and the hops after it until one recognizes it; the last one drops what it
      does not recognize. */
  function Traverse(c: Crypto, hops: seq<End>, i: nat, wire: Payload): (r: (seq<End>, Outcome))
    ensures |r.0| == |hops|
    decreases |hops| - i
  {
    if i >= |hops| then (hops, Lost) else
    match Peel(c, hops[i], wire)
    case (e, Deliver(p)) => (hops[i := e], DeliveredAt(i, p))
    case (e, Malformed) => (hops[i := e], Broken(i))
    case (e, Forward(p)) => Traverse(c, hops[i := e], i + 1, p)
  }

  /** The client tries the digests of its hops in order on a payload peeled of all layers. */
  function Dispatch(c: Crypto, ends: seq<End>, i: nat, p: Payload): (r: (seq<End>, Outcome))
    ensures |r.0| == |ends|
    decreases |ends| - i
  {
    if i >= |ends| then (ends, Lost)
    else if !Recognizes(c, ends[i], p) then Dispatch(c, ends, i + 1, p)
    else (ends[i := Absorb(ends[i], p)], if Parse(p).Some? then DeliveredAt(i, p) else Broken(i))
  }

  /** What the client makes of a backward cell: all layers off, all counters on, then the digests. */
  function ClientReceives(c: Crypto, ends: seq<End>, wire: Payload): (r: (seq<End>, Outcome))
    ensures |r.0| == |ends|
  {
    Dispatch(c, TickAll(ends), 0, PeelAll(c, ends, 0, wire))
  }

  // ----- Circuits -----

  /** Forward cells are wrapped by the client and peeled by the hops; backward cells the other way. */
  datatype Circuit = Circuit(clientF: seq<End>, hopsF: seq<End>, clientB: seq<End>, hopsB: seq<End>)
  datatype Keys = Keys(kf: seq<byte>, kb: seq<byte>, kdf: seq<byte>, kdb: seq<byte>)
  datatype Event = ToHop(hop: nat, cell: RelayCell) | FromHop(hop: nat, cell: RelayCell) | Extend(keys: Keys)

  ghost predicate InStep(s: Circuit) { s.clientF == s.hopsF && s.clientB == s.hopsB && |s.clientF| == |s.clientB| }

  ghost predicate SameLength(s: Circuit, n: nat) { |s.clientF| == |s.hopsF| == |s.clientB| == |s.hopsB| == n }

  predicate Possible(n: nat, e: Event) { e.Extend? || e.hop < n }

  predicate ToLast(n: nat, e: Event) { e.Extend? || e.hop + 1 == n }

  function LengthAfter(n: nat, e: Event): nat { if e.Extend? then n + 1 else n }

  function ToStep(c: Crypto, s: Circuit, k: nat, cell: RelayCell): (Circuit, Outcome)
    requires k < |s.clientF|
  {
    var p := Signed(c, s.clientF[k], cell);
    var r := Traverse(c, s.hopsF, 0, Onion(c, s.clientF, 0, p));
    (s.(clientF := Advance(s.clientF, k, p), hopsF := r.0), r.1)
  }

  /** Hop `k` and the hops before it wrap; the client takes off the layers of all. */
  function FromStep(c: Crypto, s: Circuit, k: nat, cell: RelayCell): (Circuit, Outcome)
    requires k < |s.hopsB|
  {
    var p := Signed(c, s.hopsB[k], cell);
    var r := ClientReceives(c, s.clientB, Onion(c, s.hopsB[..k + 1], 0, p));
    (s.(hopsB := Advance(s.hopsB[..k + 1], k, p) + s.hopsB[k + 1..], clientB := r.0), r.1)
  }

  function Grow(s: Circuit, keys: Keys): Circuit
  {
    var f, b := Fresh(keys.kf, keys.kdf), Fresh(keys.kb, keys.kdb);
    Circuit(s.clientF + [f], s.hopsF + [f], s.clientB + [b], s.hopsB + [b])
  }

  function Step(c: Crypto, s: Circuit, e: Event): (Circuit, Outcome)
    requires Possible(|s.clientF|, e) && |s.clientF| == |s.hopsB|
  {
    match e
    case ToHop(k, cell) => ToStep(c, s, k, cell)
    case FromHop(k, cell) => FromStep(c, s, k, cell)
    case Extend(keys) => (Grow(s, keys), Extended)
  }

  /** A new hop starts in both directions and on both sides at count zero, its digest seeded with its digest key. */
  lemma GrownEnds(s: Circuit, keys: Keys)
    ensures var f, b := End(keys.kf, 0, keys.kdf), End(keys.kb, 0, keys.kdb);
      Grow(s, keys) == Circuit(s.clientF + [f], s.hopsF + [f], s.clientB + [b], s.hopsB + [b])
  {
  }

  lemma StepLength(c: Crypto, s: Circuit, e: Event, n: nat)
    requires SameLength(s, n) && Possible(n, e)
    ensures SameLength(Step(c, s, e).0, LengthAfter(n, e))
  {
  }

  /** What the sending side intends, from its own state alone. */
  function Intended(c: Crypto, s: Circuit, e: Event): Outcome
    requires Possible(|s.clientF|, e) && |s.clientF| == |s.hopsB|
  {
    if e.Extend? then Extended
    else DeliveredAt(e.hop, Signed(c, if e.ToHop? then s.clientF[e.hop] else s.hopsB[e.hop], e.cell))
  }

  /** Both sides advanced as the sending side intends. */
  function IntendedState(c: Crypto, s: Circuit, e: Event): Circuit
    requires Possible(|s.clientF|, e) && |s.clientF| == |s.hopsB|
  {
    match e
    case ToHop(k, cell) => var f := Advance(s.clientF, k, Signed(c, s.clientF[k], cell)); s.(clientF := f, hopsF := f)
    case FromHop(k, cell) => var b := Advance(s.hopsB, k, Signed(c, s.hopsB[k], cell)); s.(clientB := b, hopsB := b)
    case Extend(keys) => Grow(s, keys)
  }

  // ----- Chance matches -----

  /** No hop but the last, and that only as the addressee, takes the cell on the wire for its own. */
  ghost predicate NoMatchForward(c: Crypto, ends: seq<End>, k: nat, p: Payload)
  {
    forall j :: 0 <= j < |ends| && !(j == k && j + 1 == |ends|) ==> !Recognizes(c, ends[j], Onion(c, ends, j + 1, p))
  }

  /** Nor does the client take a peeled cell for one of a hop that did not send it. */
  ghost predicate NoMatchBackward(c: Crypto, ends: seq<End>, k: nat, q: Payload)
  {
    forall j :: 0 <= j < |ends| && !(j == k && j + 1 == |ends|) ==> !Recognizes(c, ends[j], q)
  }

  ghost predicate NoChanceMatch(c: Crypto, s: Circuit, e: Event)
    requires Possible(|s.clientF|, e) && |s.clientF| == |s.hopsB|
  {
    match e
    case ToHop(k, cell) => NoMatchForward(c, s.clientF, k, Signed(c, s.clientF[k], cell))
    case FromHop(k, cell) =>
      NoMatchBackward(c, s.clientB, k, PeelAll(c, s.clientB, 0, Onion(c, s.hopsB[..k + 1], 0, Signed(c, s.hopsB[k], cell))))
    case Extend(_) => true
  }

  // ----- One forward cell -----

  ghost predicate Ticked(ends: seq<End>, hops: seq<End>, i: nat)
  {
    && |hops| == |ends| && (forall j :: 0 <= j < i && j < |ends| ==> hops[j] == Tick(ends[j]))
    && (forall j :: i <= j < |ends| ==> hops[j] == ends[j])
  }

  /** Nobody from hop `i` on recognizes the cell: it is lost, and counted by all. */
  lemma {:induction false} TraverseLost(c: Crypto, ends: seq<End>, hops: seq<End>, i: nat, p: Payload)
    requires i <= |ends| && Ticked(ends, hops, i)
    requires forall j :: i <= j < |ends| ==> !Recognizes(c, ends[j], Onion(c, ends, j + 1, p))
    ensures Traverse(c, hops, i, Onion(c, ends, i, p)) == (TickAll(ends), Lost)
    decreases |ends| - i
  {
    if i < |ends| {
      PeelUndoesLayer(c, ends[i], Onion(c, ends, i + 1, p));
      TraverseLost(c, ends, hops[i := Tick(ends[i])], i + 1, p);
    } else {
      assert hops == TickAll(ends);
    }
  }

  /** No hop from `i` to the last but one recognizes the cell. */
  ghost predicate Unseen(c: Crypto, ends: seq<End>, i: nat, p: Payload)
  {
    forall j :: i <= j < |ends| - 1 ==> !Recognizes(c, ends[j], Onion(c, ends, j + 1, p))
  }

  lemma TraverseEnd(c: Crypto, ends: seq<End>, hops: seq<End>, p: Payload)
    requires ends != [] && Ticked(ends, hops, |ends| - 1) && Recognizes(c, ends[|ends| - 1], p) && Parse(p).Some?
    ensures var last := |ends| - 1;
      Traverse(c, hops, last, Onion(c, ends, last, p)) == (Advance(ends, last, p), DeliveredAt(last, p))
  {
    var last := |ends| - 1;
    PeelUndoesLayer(c, ends[last], p);
    assert Onion(c, ends, |ends|, p) == p;
    assert hops[last := Tick(Absorb(ends[last], p))] == Advance(ends, last, p);
  }

  lemma TraverseOne(c: Crypto, hops: seq<End>, i: nat, inner: Payload)
    requires i < |hops|
    ensures var r := Traverse(c, hops, i, Layer(c, hops[i], inner));
      if Recognizes(c, hops[i], inner) then r.1 == (if Parse(inner).Some? then DeliveredAt(i, inner) else Broken(i))
      else r == Traverse(c, hops[i := Tick(hops[i])], i + 1, inner)
  {
    PeelUndoesLayer(c, hops[i], inner);
  }

  /** The last hop recognizes the cell: it gets there exactly if nobody before recognizes it. */
  lemma {:induction false} TraverseLast(c: Crypto, ends: seq<End>, hops: seq<End>, i: nat, p: Payload)
    requires i < |ends| && Ticked(ends, hops, i)
    requires Recognizes(c, ends[|ends| - 1], p) && Parse(p).Some?
    ensures var r, last := Traverse(c, hops, i, Onion(c, ends, i, p)), |ends| - 1;
      && (Unseen(c, ends, i, p) ==> r == (Advance(ends, last, p), DeliveredAt(last, p)))
      && (r.1 == DeliveredAt(last, p) ==> Unseen(c, ends, i, p))
    decreases |ends| - i
  {
    if i == |ends| - 1 {
      TraverseEnd(c, ends, hops, p);
    } else {
      TraverseOne(c, hops, i, Onion(c, ends, i + 1, p));
      if !Recognizes(c, ends[i], Onion(c, ends, i + 1, p)) {
        TraverseLast(c, ends, hops[i := Tick(ends[i])], i + 1, p);
        assert Unseen(c, ends, i, p) <==> Unseen(c, ends, i + 1, p);
      }
    }
  }

  // ----- One backward cell -----

  lemma {:induction false} DispatchLost(c: Crypto, ends: seq<End>, i: nat, p: Payload)
    requires forall j :: i <= j < |ends| ==> !Recognizes(c, ends[j], p)
    ensures Dispatch(c, ends, i, p) == (ends, Lost)
    decreases |ends| - i
  {
    if i < |ends| { DispatchLost(c, ends, i + 1, p); }
  }

  /** The first hop whose digest matches is the one, and a match that does not parse is no delivery. */
  lemma {:induction false} DispatchFirst(c: Crypto, ends: seq<End>, i: nat, j: nat, p: Payload)
    requires i <= j < |ends| && Recognizes(c, ends[j], p) && forall k :: i <= k < j ==> !Recognizes(c, ends[k], p)
    ensures Dispatch(c, ends, i, p) == (ends[j := Absorb(ends[j], p)], if Parse(p).Some? then DeliveredAt(j, p) else Broken(j))
    decreases |ends| - i
  {
    if i < j { DispatchFirst(c, ends, i + 1, j, p); }
  }

  lemma {:induction false} DispatchLast(c: Crypto, ends: seq<End>, i: nat, p: Payload)
    requires i < |ends| && Recognizes(c, ends[|ends| - 1], p) && Parse(p).Some?
    ensures var r, last := Dispatch(c, ends, i, p), |ends| - 1;
      var unseen := forall j :: i <= j < last ==> !Recognizes(c, ends[j], p);
      && (unseen ==> r == (ends[last := Absorb(ends[last], p)], DeliveredAt(last, p)))
      && (r.1 == DeliveredAt(last, p) ==> unseen)
    decreases |ends| - i
  {
    if i + 1 < |ends| && !Recognizes(c, ends[i], p) { DispatchLast(c, ends, i + 1, p); }
  }

  /** Counting does not touch digests. */
  lemma TickRecognizes(c: Crypto, ends: seq<End>, p: Payload)
    ensures forall j :: 0 <= j < |ends| ==> (Recognizes(c, TickAll(ends)[j], p) <==> Recognizes(c, ends[j], p))
  {
  }

  // ----- One event of a circuit in step -----

  lemma ForwardStep(c: Crypto, s: Circuit, k: nat, cell: RelayCell)
    requires InStep(s) && k < |s.clientF|
    ensures var e := ToHop(k, cell); var (s', o) := Step(c, s, e);
      && (k + 1 == |s.clientF| ==> (NoChanceMatch(c, s, e) <==> o == Intended(c, s, e)))
      && (NoChanceMatch(c, s, e) ==> if k + 1 == |s.clientF| then s' == IntendedState(c, s, e) else o == Lost && !InStep(s'))
  {
    var ends, p := s.clientF, Signed(c, s.clientF[k], cell);
    SignedIsRecognized(c, ends[k], cell);
    if k + 1 == |ends| {
      TraverseLast(c, ends, ends, 0, p);
      assert NoMatchForward(c, ends, k, p) <==> Unseen(c, ends, 0, p);
    } else if NoMatchForward(c, ends, k, p) {
      TraverseLost(c, ends, ends, 0, p);
      assert |Advance(ends, k, p)[k].absorbed| == |TickAll(ends)[k].absorbed| + CELL_PAYLOAD;
    }
  }

  /** A reply of the last hop. */
  lemma LastReplies(c: Crypto, ends: seq<End>, k: nat, p: Payload)
    requires k + 1 == |ends| && Recognizes(c, ends[k], p) && Parse(p).Some?
    ensures var q, r := PeelAll(c, ends, 0, Onion(c, ends, 0, p)), ClientReceives(c, ends, Onion(c, ends, 0, p));
      && q == p
      && (NoMatchBackward(c, ends, k, p) ==> r == (Advance(ends, k, p), DeliveredAt(k, p)))
      && (r.1 == DeliveredAt(k, p) ==> NoMatchBackward(c, ends, k, p))
  {
    PeelAllUndoesOnion(c, ends, 0, p);
    TickRecognizes(c, ends, p);
    DispatchLast(c, TickAll(ends), 0, p);
    assert TickAll(ends)[k := Absorb(TickAll(ends)[k], p)] == Advance(ends, k, p);
  }

  /** A reply of a hop before. */
  lemma EarlierReplies(c: Crypto, ends: seq<End>, k: nat, wire: Payload)
    requires k + 1 < |ends| && NoMatchBackward(c, ends, k, PeelAll(c, ends, 0, wire))
    ensures ClientReceives(c, ends, wire) == (TickAll(ends), Lost)
  {
    TickRecognizes(c, ends, PeelAll(c, ends, 0, wire));
    DispatchLost(c, TickAll(ends), 0, PeelAll(c, ends, 0, wire));
  }

  lemma BackwardStep(c: Crypto, s: Circuit, k: nat, cell: RelayCell)
    requires InStep(s) && k < |s.clientF|
    ensures var e := FromHop(k, cell); var (s', o) := Step(c, s, e);
      && (k + 1 == |s.clientF| ==> (NoChanceMatch(c, s, e) <==> o == Intended(c, s, e)))
      && (NoChanceMatch(c, s, e) ==> if k + 1 == |s.clientF| then s' == IntendedState(c, s, e) else o == Lost && !InStep(s'))
  {
    var ends, p := s.clientB, Signed(c, s.hopsB[k], cell);
    SignedIsRecognized(c, ends[k], cell);
    if k + 1 == |ends| {
      assert ends[..k + 1] == ends && ends[k + 1..] == [];
      LastReplies(c, ends, k, p);
      assert Advance(ends, k, p) + [] == Advance(ends, k, p);
    } else if NoChanceMatch(c, s, FromHop(k, cell)) {
      EarlierReplies(c, ends, k, Onion(c, ends[..k + 1], 0, p));
      OutOfStep(s, k, p);
    }
  }

  /** The client has counted a cell that the hops behind hop `k` have not. */
  lemma OutOfStep(s: Circuit, k: nat, p: Payload)
    requires InStep(s) && k + 1 < |s.hopsB|
    ensures TickAll(s.clientB) != Advance(s.hopsB[..k + 1], k, p) + s.hopsB[k + 1..]
  {
    var hops := Advance(s.hopsB[..k + 1], k, p) + s.hopsB[k + 1..];
    assert hops[k + 1] == s.hopsB[k + 1] && TickAll(s.clientB)[k + 1] == Tick(s.hopsB[k + 1]);
    assert Later(s.hopsB[k + 1].counter, 1) != s.hopsB[k + 1].counter;
  }

  /** From ends in step and without a chance match, a cell for or from the last hop arrives there as the
      sender's plaintext with both sides in step again, and one for or from any other hop is lost with the
      sides out of step; for the last hop a chance match is the only thing that can go wrong. */
  lemma CellArrivesIff(c: Crypto, s: Circuit, e: Event)
    requires InStep(s) && Possible(|s.clientF|, e)
    ensures NoChanceMatch(c, s, e) ==>
      var (s', o) := Step(c, s, e); (o == Intended(c, s, e) <==> ToLast(|s.clientF|, e)) && (InStep(s') <==> ToLast(|s.clientF|, e))
    ensures ToLast(|s.clientF|, e) ==> (Step(c, s, e).1 == Intended(c, s, e) <==> NoChanceMatch(c, s, e))
    ensures ToLast(|s.clientF|, e) && NoChanceMatch(c, s, e) ==> Step(c, s, e).0 == IntendedState(c, s, e) && InStep(Step(c, s, e).0)
  {
    match e
    case ToHop(k, cell) => ForwardStep(c, s, k, cell);
    case FromHop(k, cell) => BackwardStep(c, s, k, cell);
    case Extend(_) =>
  }

  /** What is delivered parses to the sender's cell. */
  lemma IntendedParses(c: Crypto, s: Circuit, e: Event)
    requires Possible(|s.clientF|, e) && |s.clientF| == |s.hopsB| && !e.Extend?
    ensures Parse(Intended(c, s, e).payload) == Some(e.cell)
  {
    SignedIsRecognized(c, if e.ToHop? then s.clientF[e.hop] else s.hopsB[e.hop], e.cell);
  }

  // ----- Whole runs, both directions -----

  /** Every cell names a hop that is there when it is sent. */
  predicate AllPossible(n: nat, events: seq<Event>)
    decreases |events|
  {
    events == [] || (Possible(n, events[0]) && AllPossible(LengthAfter(n, events[0]), events[1..]))
  }

  /** Every cell is for, or from, the hop that is the last one at the time. */
  predicate AllToLast(n: nat, events: seq<Event>)
    decreases |events|
  {
    events == [] || (ToLast(n, events[0]) && AllToLast(LengthAfter(n, events[0]), events[1..]))
  }

  function Run(c: Crypto, s: Circuit, events: seq<Event>): (r: (Circuit, seq<Outcome>))
    requires SameLength(s, |s.clientF|) && AllPossible(|s.clientF|, events)
    ensures |r.1| == |events|
    decreases |events|
  {
    if events == [] then (s, []) else
    StepLength(c, s, events[0], |s.clientF|);
    var (s', o) := Step(c, s, events[0]);
    var (s'', os) := Run(c, s', events[1..]);
    (s'', [o] + os)
  }

  /** The outcomes a run must have, computed from the sending sides only. */
  function IntendedRun(c: Crypto, s: Circuit, events: seq<Event>): seq<Outcome>
    requires SameLength(s, |s.clientF|) && AllPossible(|s.clientF|, events)
    decreases |events|
  {
    if events == [] then [] else
    [Intended(c, s, events[0])] + IntendedRun(c, IntendedState(c, s, events[0]), events[1..])
  }

  /** No cell of the run matches a digest by chance. */
  ghost predicate NoChanceRun(c: Crypto, s: Circuit, events: seq<Event>)
    requires SameLength(s, |s.clientF|) && AllPossible(|s.clientF|, events)
    decreases |events|
  {
    events == [] ||
    (StepLength(c, s, events[0], |s.clientF|);
     NoChanceMatch(c, s, events[0]) && NoChanceRun(c, Step(c, s, events[0]).0, events[1..]))
  }

  lemma ConsEqual<T>(a: T, s: seq<T>, b: T, t: seq<T>)
    ensures [a] + s == [b] + t <==> a == b && s == t
  {
    assert ([a] + s)[0] == a && ([a] + s)[1..] == s;
    assert ([b] + t)[0] == b && ([b] + t)[1..] == t;
  }

  /** For every circuit, while it is built and after, and every interleaving of both directions: without chance
      matches, all outcomes are the intended ones exactly if every cell is for or from the hop that is the last
      one at the time; and if every cell is, exactly if there is no chance match. Then both sides end in step. */
  lemma {:induction false} RunNeverFallsOutOfStep(c: Crypto, s: Circuit, events: seq<Event>)
    requires InStep(s) && AllPossible(|s.clientF|, events)
    ensures NoChanceRun(c, s, events) ==> (Run(c, s, events).1 == IntendedRun(c, s, events) <==> AllToLast(|s.clientF|, events))
    ensures AllToLast(|s.clientF|, events) ==> (Run(c, s, events).1 == IntendedRun(c, s, events) <==> NoChanceRun(c, s, events))
    ensures AllToLast(|s.clientF|, events) && NoChanceRun(c, s, events) ==> InStep(Run(c, s, events).0)
    decreases |events|
  {
    if events != [] {
      var e := events[0];
      var (s', o) := Step(c, s, e);
      CellArrivesIff(c, s, e);
      StepLength(c, s, e, |s.clientF|);
      assert Run(c, s, events).1 == [o] + Run(c, s', events[1..]).1;
      ConsEqual(o, Run(c, s', events[1..]).1, Intended(c, s, e), IntendedRun(c, IntendedState(c, s, e), events[1..]));
      if ToLast(|s.clientF|, e) && NoChanceMatch(c, s, e) {
        RunNeverFallsOutOfStep(c, s', events[1..]);
      }
    }
  }

  // ----- What the ends hold after a run -----

  /** In one direction: the cells sent, and the end a new hop starts with. */
  predicate Sends(e: Event, forward: bool) { if forward then e.ToHop? else e.FromHop? }

  function NewEnd(keys: Keys, forward: bool): End { if forward then Fresh(keys.kf, keys.kdf) else Fresh(keys.kb, keys.kdb) }

  function Own(j: nat, e: Event, forward: bool): seq<byte> { if Sends(e, forward) && e.hop == j then Unsigned(e.cell) else [] }

  /** The bytes that hop `j` absorbs: its own cells, no others. */
  function Absorbed(j: nat, events: seq<Event>, forward: bool): seq<byte>
  {
    if events == [] then [] else Own(j, events[0], forward) + Absorbed(j, events[1..], forward)
  }

  function CountSent(events: seq<Event>, forward: bool): nat
  {
    if events == [] then 0 else (if Sends(events[0], forward) then 1 else 0) + CountSent(events[1..], forward)
  }

  /** The sender's ends after an event for the last hop. */
  function SenderNext(c: Crypto, ends: seq<End>, e: Event, forward: bool): (r: seq<End>)
    requires Possible(|ends|, e)
    ensures |r| == LengthAfter(|ends|, e)
  {
    if e.Extend? then ends + [NewEnd(e.keys, forward)]
    else if Sends(e, forward) then Advance(ends, e.hop, Signed(c, ends[e.hop], e.cell)) else ends
  }

  function Sent(c: Crypto, ends: seq<End>, events: seq<Event>, forward: bool): (r: seq<End>)
    requires AllPossible(|ends|, events)
    ensures |r| >= |ends|
    decreases |events|
  {
    if events == [] then ends else Sent(c, SenderNext(c, ends, events[0], forward), events[1..], forward)
  }

  lemma {:induction false} RunSends(c: Crypto, s: Circuit, events: seq<Event>)
    requires InStep(s) && AllPossible(|s.clientF|, events) && AllToLast(|s.clientF|, events) && NoChanceRun(c, s, events)
    ensures Run(c, s, events).0.hopsF == Sent(c, s.hopsF, events, true)
    ensures Run(c, s, events).0.hopsB == Sent(c, s.hopsB, events, false)
    decreases |events|
  {
    if events != [] {
      CellArrivesIff(c, s, events[0]);
      StepLength(c, s, events[0], |s.clientF|);
      RunSends(c, Step(c, s, events[0]).0, events[1..]);
    }
  }

  lemma LaterAdds(start: Counter, m: nat, n: nat)
    ensures Later(Later(start, m), n) == Later(start, m + n)
  {
  }

  lemma SentOne(c: Crypto, ends: seq<End>, e: Event, j: nat, forward: bool)
    requires Possible(|ends|, e) && j < |ends|
    ensures SenderNext(c, ends, e, forward)[j]
         == End(ends[j].key, Later(ends[j].counter, if Sends(e, forward) then 1 else 0), ends[j].absorbed + Own(j, e, forward))
  {
    if Sends(e, forward) { SignedIsRecognized(c, ends[e.hop], e.cell); }
    assert ends[j].absorbed + [] == ends[j].absorbed;
  }

  lemma {:induction false} SentEnd(c: Crypto, ends: seq<End>, events: seq<Event>, j: nat, forward: bool)
    requires j < |ends| && AllPossible(|ends|, events)
    ensures Sent(c, ends, events, forward)[j]
         == End(ends[j].key, Later(ends[j].counter, CountSent(events, forward)), ends[j].absorbed + Absorbed(j, events, forward))
    decreases |events|
  {
    if events == [] {
      assert ends[j].absorbed + [] == ends[j].absorbed;
    } else {
      var e, rest := events[0], events[1..];
      SentOne(c, ends, e, j, forward);
      SentEnd(c, SenderNext(c, ends, e, forward), rest, j, forward);
      LaterAdds(ends[j].counter, if Sends(e, forward) then 1 else 0, CountSent(rest, forward));
      Associate(ends[j].absorbed, Own(j, e, forward), Absorbed(j, rest, forward));
    }
  }

  /** After any such run a hop has counted every cell sent in a direction since, and its digest has absorbed
      exactly the ones it was the last hop for: every other speculative update was dropped. */
  lemma HopAfterRun(c: Crypto, s: Circuit, events: seq<Event>, j: nat)
    requires InStep(s) && AllPossible(|s.clientF|, events) && AllToLast(|s.clientF|, events) && NoChanceRun(c, s, events)
    requires j < |s.hopsF|
    ensures var r := Run(c, s, events).0;
      && j < |r.hopsF| && j < |r.hopsB|
      && r.hopsF[j] == End(s.hopsF[j].key, Later(s.hopsF[j].counter, CountSent(events, true)), s.hopsF[j].absorbed + Absorbed(j, events, true))
      && r.hopsB[j] == End(s.hopsB[j].key, Later(s.hopsB[j].counter, CountSent(events, false)), s.hopsB[j].absorbed + Absorbed(j, events, false))
  {
    RunSends(c, s, events);
    SentEnd(c, s.hopsF, events, j, true);
    SentEnd(c, s.hopsB, events, j, false);
  }

  /** The payload with zeros for its digest, after the bytes `seen`: what a digest is taken of. */
  ghost predicate HasDigest(c: Crypto, seen: seq<byte>, p: Payload)
  {
    p[3..7] == c.blake2b(seen + (p[..3] + [0, 0, 0, 0] + p[7..]))[..4]
  }

  /** Recognition looks at everything absorbed; the sender's digest is that of everything absorbed. */
  lemma DigestIsRunning(c: Crypto, e: End, cell: RelayCell, p: Payload)
    ensures Recognizes(c, e, p) <==> HasDigest(c, e.absorbed, p)
    ensures Signed(c, e, cell)[3..7] == c.blake2b(e.absorbed + Unsigned(cell))[..4]
    ensures Signed(c, e, cell)[..3] == Unsigned(cell)[..3] && Signed(c, e, cell)[7..] == Unsigned(cell)[7..]
  {
    assert Zeros(4) == [0, 0, 0, 0];
    UnsignedFields(cell);
    SignedParts(c, e, cell);
  }

  lemma SignedParts(c: Crypto, e: End, cell: RelayCell)
    ensures Signed(c, e, cell)[3..7] == DigestOf(c, e.absorbed, Unsigned(cell))
    ensures Signed(c, e, cell)[..3] == Unsigned(cell)[..3] && Signed(c, e, cell)[7..] == Unsigned(cell)[7..]
  {
  }

  /** After any such run, in either direction, the next cell for a hop carries the digest of its digest key, of all
      the cells it was the last hop for, and of the cell; and a payload is recognized there exactly if its digest
      is that of the digest key, of those cells, and of the payload. */
  lemma DigestAfterRun(c: Crypto, s: Circuit, events: seq<Event>, j: nat, cell: RelayCell, p: Payload, forward: bool)
    requires InStep(s) && AllPossible(|s.clientF|, events) && AllToLast(|s.clientF|, events) && NoChanceRun(c, s, events)
    requires j < |s.hopsF|
    ensures var r := Run(c, s, events).0; |r.hopsF| == |r.hopsB| == |r.clientF| == |r.clientB| > j
    ensures var r := Run(c, s, events).0;
      var sender, receiver := if forward then r.clientF[j] else r.hopsB[j], if forward then r.hopsF[j] else r.clientB[j];
      var seen := (if forward then s.hopsF[j].absorbed else s.hopsB[j].absorbed) + Absorbed(j, events, forward);
      && Signed(c, sender, cell)[3..7] == c.blake2b(seen + Unsigned(cell))[..4]
      && (Recognizes(c, receiver, p) <==> HasDigest(c, seen, p))
  {
    RunNeverFallsOutOfStep(c, s, events);
    HopAfterRun(c, s, events, j);
    var r := Run(c, s, events).0;
    DigestIsRunning(c, if forward then r.hopsF[j] else r.hopsB[j], cell, p);
  }

  /** A hop takes a payload for its own, or finds it malformed, exactly if what its layer leaves has the digest. */
  lemma PeelsByDigest(c: Crypto, e: End, wire: Payload)
    ensures Peel(c, e, wire).1.Forward? <==> !HasDigest(c, e.absorbed, Layer(c, e, wire))
  {
    DigestIsRunning(c, e, Cell(0, 0, []), Layer(c, e, wire));
  }

  // ----- Nonces -----

  /** A hop's nonces differ before 2^64 cells have passed. */
  lemma NonceNotReused(start: Counter, m: nat, n: nat)
    requires m < n < COUNTER_LIMIT
    ensures Nonce(Later(start, m)) != Nonce(Later(start, n))
  {
    var a, b := Later(start, m), Later(start, n);
    FieldSizes();
    BigEndianRoundTrip(a, 8);
    BigEndianRoundTrip(b, 8);
    assert Nonce(a)[..8] == BigEndian(a, 8) && Nonce(b)[..8] == BigEndian(b, 8);
  }

  /** The number whose bytes, least significant first, are `bs`. */
  function LittleEndian(bs: seq<byte>): nat { if bs == [] then 0 else bs[0] as nat + 256 * LittleEndian(bs[1..]) }

  lemma {:induction false} LittleEndianDetermines(a: seq<byte>, b: seq<byte>)
    requires |a| == |b| && LittleEndian(a) == LittleEndian(b)
    ensures a == b
  {
    if a != [] {
      LowByte(a[0], LittleEndian(a[1..]));
      LowByte(b[0], LittleEndian(b[1..]));
      LittleEndianDetermines(a[1..], b[1..]);
      TakeDrop(a, 1);
      TakeDrop(b, 1);
    }
  }

  lemma LowByte(low: byte, high: nat)
    ensures (low as nat + 256 * high) % 256 == low as nat && (low as nat + 256 * high) / 256 == high
  {
  }

  const BLOCKS: nat := 8   // of 64 bytes, for 508

  /** Where the key stream of a cell starts, in blocks: ChaCha20 reads the first eight bytes of its nonce as a
      block counter, least significant byte first. */
  function FirstBlock(n: Counter): nat { LittleEndian(Nonce(n)[..8]) }

  lemma TopByte(n: Counter)
    requires n < 0x100_0000_0000_0000
    ensures BigEndian(n, 8)[0] == 0
  {
    FieldSizes();
    assert Pow256(7) == 0x100_0000_0000_0000;
    BigEndianRoundTrip(n, 7);
    ZeroInFront(n, 7);
  }

  lemma {:induction false} ZeroInFront(n: nat, width: nat)
    requires n < Pow256(width)
    ensures BigEndian(n, width + 1)[0] == 0
  {
    if width > 0 { ZeroInFront(n / 256, width - 1); }
  }

  /** Cells take eight blocks each, and no two of the first 2^56 cells of a hop share one. */
  lemma BlocksDisjoint(m: Counter, n: Counter, i: nat, j: nat)
    requires m < n < 0x100_0000_0000_0000 && i < BLOCKS && j < BLOCKS
    ensures FirstBlock(m) + i != FirstBlock(n) + j
  {
    var a, b := Nonce(m)[..8], Nonce(n)[..8];
    assert a == BigEndian(m, 8) && b == BigEndian(n, 8);
    TopByte(m);
    TopByte(n);
    if LittleEndian(a[1..]) == LittleEndian(b[1..]) {
      LittleEndianDetermines(a, b);
      FieldSizes();
      BigEndianRoundTrip(m, 8);
      BigEndianRoundTrip(n, 8);
    }
  }

  // ----- The stateful sides -----

  /** The client's state of one circuit. */
  class ClientCircuit {
    const crypto: Crypto
    var forward: seq<End>
    var backward: seq<End>

    constructor (crypto: Crypto)
      ensures this.crypto == crypto && forward == [] && backward == []
    {
      this.crypto, forward, backward := crypto, [], [];
    }

    method AddHop(keys: Keys)
      modifies this
      ensures forward == old(forward) + [End(keys.kf, 0, keys.kdf)] && backward == old(backward) + [End(keys.kb, 0, keys.kdb)]
    {
      forward := forward + [Fresh(keys.kf, keys.kdf)];
      backward := backward + [Fresh(keys.kb, keys.kdb)];
    }

    /** Wraps a payload for all hops and counts it at each. */
    method EncryptOutbound(p: Payload) returns (wire: Payload)
      modifies this`forward
      ensures wire == Onion(crypto, old(forward), 0, p) && forward == TickAll(old(forward))
    {
      ghost var before := forward;
      wire := p;
      var i: nat := |forward|;
      while i > 0
        invariant i <= |forward| == |before| && wire == Onion(crypto, before, i, p)
        invariant forall j :: 0 <= j < i ==> forward[j] == before[j]
        invariant forall j :: i <= j < |before| ==> forward[j] == Tick(before[j])
      {
        i := i - 1;
        wire := Layer(crypto, forward[i], wire);
        forward := forward[i := Tick(forward[i])];
      }
    }

    /** Signs the cell for hop `k` and wraps it for all hops. */
    method Send(k: nat, cell: RelayCell) returns (wire: Payload)
      requires k < |forward|
      modifies this`forward
      ensures var p := Signed(crypto, old(forward)[k], cell);
        && wire == Onion(crypto, old(forward), 0, p) && forward == Advance(old(forward), k, p)
        && UnderStreams(crypto, old(forward), p, wire)
    {
      var p := Signed(crypto, forward[k], cell);
      OnionIgnoresDigests(crypto, forward, k, p, 0, p);
      WireIsStreams(crypto, forward, p);
      forward := forward[k := Absorb(forward[k], p)];
      wire := EncryptOutbound(p);
    }

    /** Takes off every hop's layer. */
    method DecryptInbound(wire: Payload) returns (p: Payload)
      modifies this`backward
      ensures p == PeelAll(crypto, old(backward), 0, wire) && backward == TickAll(old(backward))
    {
      ghost var before := backward;
      p := wire;
      for i := 0 to |backward|
        invariant |backward| == |before| && PeelAll(crypto, before, i, p) == PeelAll(crypto, before, 0, wire)
        invariant forall j :: 0 <= j < i ==> backward[j] == Tick(before[j])
        invariant forall j :: i <= j < |before| ==> backward[j] == before[j]
      {
        p := Layer(crypto, backward[i], p);
        backward := backward[i := Tick(backward[i])];
      }
    }

    /** Finds the hop whose digest matches. */
    method Receive(wire: Payload) returns (o: Outcome)
      modifies this`backward
      ensures (backward, o) == ClientReceives(crypto, old(backward), wire)
    {
      var p := DecryptInbound(wire);
      ghost var ticked := backward;
      for i := 0 to |backward|
        invariant backward == ticked && Dispatch(crypto, ticked, i, p) == Dispatch(crypto, ticked, 0, p)
      {
        if Recognizes(crypto, backward[i], p) {
          backward := backward[i := Absorb(backward[i], p)];
          return if Parse(p).Some? then DeliveredAt(i, p) else Broken(i);
        }
      }
      o := Lost;
    }
  }

  /** One relay's state of one circuit. */
  class RelayHop {
    const crypto: Crypto
    const kf: seq<byte>
    const kb: seq<byte>
    var forwardCounter: Counter
    var forwardAbsorbed: seq<byte>
    var backwardCounter: Counter
    var backwardAbsorbed: seq<byte>

    constructor (crypto: Crypto, keys: Keys)
      ensures this.crypto == crypto && ForwardEnd() == End(keys.kf, 0, keys.kdf) && BackwardEnd() == End(keys.kb, 0, keys.kdb)
    {
      this.crypto, kf, kb := crypto, keys.kf, keys.kb;
      forwardCounter, forwardAbsorbed, backwardCounter, backwardAbsorbed := 0, keys.kdf, 0, keys.kdb;
    }

    function ForwardEnd(): End
      reads this
    {
      End(kf, forwardCounter, forwardAbsorbed)
    }

    function BackwardEnd(): End
      reads this
    {
      End(kb, backwardCounter, backwardAbsorbed)
    }

    method Receive(wire: Payload) returns (v: Verdict)
      modifies this`forwardCounter, this`forwardAbsorbed
      ensures (ForwardEnd(), v) == Peel(crypto, old(ForwardEnd()), wire)
    {
      var p := Layer(crypto, ForwardEnd(), wire);
      forwardCounter := Later(forwardCounter, 1);
      var speculative := forwardAbsorbed + Zeroed(p);
      if p[3..7] != crypto.blake2b(speculative)[..4] { return Forward(p); }
      forwardAbsorbed := speculative;
      v := if Parse(p).Some? then Deliver(p) else Malformed;
    }

    /** The hop's own layer, on a reply of its own or of a hop behind it. */
    method WrapBackward(p: Payload) returns (wire: Payload)
      modifies this`backwardCounter
      ensures wire == Layer(crypto, old(BackwardEnd()), p) && BackwardEnd() == Tick(old(BackwardEnd()))
    {
      wire := Layer(crypto, BackwardEnd(), p);
      backwardCounter := Later(backwardCounter, 1);
    }

    method Reply(cell: RelayCell) returns (wire: Payload)
      modifies this`backwardCounter, this`backwardAbsorbed
      ensures var e := old(BackwardEnd()); var p := Signed(crypto, e, cell);
        wire == Layer(crypto, e, p) && BackwardEnd() == Tick(Absorb(e, p))
    {
      var p := Signed(crypto, BackwardEnd(), cell);
      backwardAbsorbed := backwardAbsorbed + Zeroed(p);
      wire := WrapBackward(p);
    }
  }
}
