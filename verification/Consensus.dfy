/** Consensus documents: the byte format, the signed-bytes view, and acceptance by a majority of
    directory authorities. */
module Consensus {
  import opened Bytes
  import ExitPolicy

  const VERSION: byte := 0x02
  const RSE_FIXED: nat := 124

  type U64 = n: nat | n < 0x1_0000_0000_0000_0000
  type U16 = n: nat | n < 0x1_0000
  type Fingerprint = f: seq<byte> | |f| == 32 witness Zeros(32)
  type PublicKey = k: seq<byte> | |k| == 32 witness Zeros(32)
  type Signature = s: seq<byte> | |s| == 64 witness Zeros(64)

  datatype Entry = Entry(da: Fingerprint, signature: Signature)

  /** A relay: an address of zeros is no address, and an exit policy is empty or parses. */
  datatype RawRelay = Relay(fingerprint: Fingerprint, idPk: PublicKey, onionPk: PublicKey,
                            ipv4: Option<seq<byte>>, ipv6: Option<seq<byte>>, flags: U16, policy: seq<byte>)

  predicate ValidAddress(a: Option<seq<byte>>, size: nat) { a.Some? ==> |a.value| == size && a.value != Zeros(size) }

  predicate ValidPolicy(policy: seq<byte>) { policy == [] || ExitPolicy.ParsePolicy(policy).Some? }

  predicate ValidRelay(r: RawRelay)
  {
    ValidAddress(r.ipv4, 6) && ValidAddress(r.ipv6, 18) && |r.policy| < 0x1_0000 && ValidPolicy(r.policy)
  }

  const NOWHERE := Relay(Zeros(32), Zeros(32), Zeros(32), None, None, 0, [])

  type Relay = r: RawRelay | ValidRelay(r) witness NOWHERE

  datatype RawDocument = Document(validAfter: U64, freshUntil: U64, validUntil: U64, signatures: seq<Entry>, relays: seq<Relay>)

  type Document = d: RawDocument | |d.signatures| < 256 && |d.relays| < 0x1_0000_0000 witness Document(0, 0, 0, [], [])

  // ----- One relay -----

  function EncodeAddress(a: Option<seq<byte>>, size: nat): (bs: seq<byte>)
    requires ValidAddress(a, size)
    ensures |bs| == size
  {
    if a.Some? then a.value else Zeros(size)
  }

  function ParseAddress(bs: seq<byte>): (a: Option<seq<byte>>)
    ensures ValidAddress(a, |bs|) && EncodeAddress(a, |bs|) == bs
  {
    if bs == Zeros(|bs|) then None else Some(bs)
  }

  lemma AddressRoundTrip(a: Option<seq<byte>>, size: nat)
    requires ValidAddress(a, size)
    ensures ParseAddress(EncodeAddress(a, size)) == a
  {
  }

  function Keys(r: Relay): (bs: seq<byte>)
    ensures |bs| == 96
  {
    r.fingerprint + r.idPk + r.onionPk
  }

  function Addresses(r: Relay): (bs: seq<byte>)
    ensures |bs| == 24
  {
    EncodeAddress(r.ipv4, 6) + EncodeAddress(r.ipv6, 18)
  }

  function Numbers(r: Relay): (bs: seq<byte>)
    ensures |bs| == 4
  {
    BigEndian(r.flags, 2) + BigEndian(|r.policy|, 2)
  }

  function EncodeRelay(r: Relay): (bs: seq<byte>)
    ensures |bs| == RSE_FIXED + |r.policy|
  {
    Keys(r) + Addresses(r) + Numbers(r) + r.policy
  }

  /** The relay at the start of `bs`, and what follows it. */
  function ParseRelay(bs: seq<byte>): (r: Option<(Relay, seq<byte>)>)
    ensures r.Some? ==> |r.value.1| < |bs|
  {
    if |bs| < RSE_FIXED then None else
    FieldSizes();
    var keys, addresses, numbers, rest := bs[..96], bs[96..120], bs[120..124], bs[124..];
    var size := FromBigEndian(numbers[2..]);
    if |rest| < size || !ValidPolicy(rest[..size]) then None else
    Some((Relay(keys[..32], keys[32..64], keys[64..], ParseAddress(addresses[..6]), ParseAddress(addresses[6..]),
                FromBigEndian(numbers[..2]), rest[..size]), rest[size..]))
  }

  lemma Split3(a: seq<byte>, b: seq<byte>, c: seq<byte>, d: seq<byte>)
    requires |a| == 96 && |b| == 24 && |c| == 4
    ensures var bs := a + b + c + d; bs[..96] == a && bs[96..120] == b && bs[120..124] == c && bs[124..] == d
  {
  }

  lemma KeyFields(r: Relay)
    ensures Keys(r)[..32] == r.fingerprint && Keys(r)[32..64] == r.idPk && Keys(r)[64..] == r.onionPk
  {
  }

  lemma NumberFields(r: Relay)
    ensures FromBigEndian(Numbers(r)[..2]) == r.flags && FromBigEndian(Numbers(r)[2..]) == |r.policy|
  {
    FieldSizes();
    BigEndianRoundTrip(r.flags, 2);
    BigEndianRoundTrip(|r.policy|, 2);
    assert Numbers(r)[..2] == BigEndian(r.flags, 2) && Numbers(r)[2..] == BigEndian(|r.policy|, 2);
  }

  lemma AddressFields(r: Relay)
    ensures ParseAddress(Addresses(r)[..6]) == r.ipv4 && ParseAddress(Addresses(r)[6..]) == r.ipv6
  {
    assert Addresses(r)[..6] == EncodeAddress(r.ipv4, 6) && Addresses(r)[6..] == EncodeAddress(r.ipv6, 18);
    AddressRoundTrip(r.ipv4, 6);
    AddressRoundTrip(r.ipv6, 18);
  }

  lemma Append(a: seq<byte>, b: seq<byte>, c: seq<byte>, p: seq<byte>, tail: seq<byte>)
    ensures a + b + c + p + tail == a + b + c + (p + tail)
    ensures (p + tail)[..|p|] == p && (p + tail)[|p|..] == tail
  {
  }

  lemma ParseEncodedRelay(r: Relay, tail: seq<byte>)
    ensures ParseRelay(EncodeRelay(r) + tail) == Some((r, tail))
  {
    Append(Keys(r), Addresses(r), Numbers(r), r.policy, tail);
    Split3(Keys(r), Addresses(r), Numbers(r), r.policy + tail);
    KeyFields(r);
    NumberFields(r);
    AddressFields(r);
  }

  lemma NumbersBack(r: Relay, numbers: seq<byte>)
    requires |numbers| == 4 && r.flags == FromBigEndian(numbers[..2]) && |r.policy| == FromBigEndian(numbers[2..])
    ensures Numbers(r) == numbers
  {
    FromBigEndianRoundTrip(numbers[..2]);
    FromBigEndianRoundTrip(numbers[2..]);
    TakeDrop(numbers, 2);
  }

  lemma KeysBack(r: Relay, keys: seq<byte>)
    requires |keys| == 96 && r.fingerprint == keys[..32] && r.idPk == keys[32..64] && r.onionPk == keys[64..]
    ensures Keys(r) == keys
  {
  }

  lemma ParsedRelayEncodes(bs: seq<byte>)
    requires ParseRelay(bs).Some?
    ensures bs == EncodeRelay(ParseRelay(bs).value.0) + ParseRelay(bs).value.1
  {
    var (r, tail) := ParseRelay(bs).value;
    NumbersBack(r, bs[120..124]);
    KeysBack(r, bs[..96]);
    TakeDrop(bs[96..120], 6);
    assert Addresses(r) == bs[96..120];
    TakeDrop(bs[124..], |r.policy|);
    assert bs == bs[..96] + bs[96..120] + bs[120..124] + bs[124..];
    Append(bs[..96], bs[96..120], bs[120..124], r.policy, tail);
  }

  function EncodeRelays(rs: seq<Relay>): seq<byte> { if rs == [] then [] else EncodeRelay(rs[0]) + EncodeRelays(rs[1..]) }

  /** Exactly `n` relays and nothing after them. */
  function ParseRelays(bs: seq<byte>, n: nat): (r: Option<seq<Relay>>)
    ensures r.Some? ==> |r.value| == n
  {
    if n == 0 then if bs == [] then Some([]) else None else
    match ParseRelay(bs)
    case None => None
    case Some((relay, rest)) =>
      match ParseRelays(rest, n - 1)
      case None => None
      case Some(relays) => Some([relay] + relays)
  }

  lemma ParseOneMore(bs: seq<byte>, r: Relay, rest: seq<byte>, rs: seq<Relay>)
    requires ParseRelay(bs) == Some((r, rest)) && ParseRelays(rest, |rs|) == Some(rs)
    ensures ParseRelays(bs, |rs| + 1) == Some([r] + rs)
  {
  }

  lemma EncodeOneMore(r: Relay, rs: seq<Relay>)
    ensures EncodeRelays([r] + rs) == EncodeRelay(r) + EncodeRelays(rs)
  {
    assert ([r] + rs)[1..] == rs;
  }

  lemma ParseOneMoreEncoded(r: Relay, rest: seq<Relay>)
    requires ParseRelays(EncodeRelays(rest), |rest|) == Some(rest)
    ensures ParseRelays(EncodeRelays([r] + rest), |rest| + 1) == Some([r] + rest)
  {
    EncodeOneMore(r, rest);
    ParseEncodedRelay(r, EncodeRelays(rest));
    ParseOneMore(EncodeRelays([r] + rest), r, EncodeRelays(rest), rest);
  }

  lemma {:induction false} ParseEncodedRelays(rs: seq<Relay>)
    ensures ParseRelays(EncodeRelays(rs), |rs|) == Some(rs)
  {
    if rs != [] {
      ParseEncodedRelays(rs[1..]);
      ParseOneMoreEncoded(rs[0], rs[1..]);
      TakeDrop(rs, 1);
      assert rs[..1] == [rs[0]];
    }
  }

  lemma ParsedOneMore(bs: seq<byte>, n: nat, rs: seq<Relay>) returns (rest: seq<byte>)
    requires n > 0 && ParseRelays(bs, n) == Some(rs)
    ensures rs != [] && ParseRelays(rest, n - 1) == Some(rs[1..]) && ParseRelay(bs) == Some((rs[0], rest))
  {
    rest := ParseRelay(bs).value.1;
  }

  lemma OneMoreEncodes(bs: seq<byte>, rest: seq<byte>, rs: seq<Relay>)
    requires rs != [] && ParseRelay(bs) == Some((rs[0], rest)) && EncodeRelays(rs[1..]) == rest
    ensures EncodeRelays(rs) == bs
  {
    ParsedRelayEncodes(bs);
  }

  lemma {:induction false} ParsedRelaysEncode(bs: seq<byte>, n: nat, rs: seq<Relay>)
    requires ParseRelays(bs, n) == Some(rs)
    ensures EncodeRelays(rs) == bs
  {
    if n == 0 {
      assert rs == [] && bs == [];
    } else {
      var rest := ParsedOneMore(bs, n, rs);
      ParsedRelaysEncode(rest, n - 1, rs[1..]);
      OneMoreEncodes(bs, rest, rs);
    }
  }

  // ----- The document -----

  function Header(d: Document): (bs: seq<byte>)
    ensures |bs| == 26
  {
    [VERSION] + BigEndian(d.validAfter, 8) + BigEndian(d.freshUntil, 8) + BigEndian(d.validUntil, 8) + [|d.signatures| as byte]
  }

  function Body(d: Document): seq<byte> { BigEndian(|d.relays|, 4) + EncodeRelays(d.relays) }

  function Block(entries: seq<Entry>): (bs: seq<byte>)
    ensures |bs| == 96 * |entries|
  {
    if entries == [] then [] else entries[0].da + entries[0].signature + Block(entries[1..])
  }

  function Encode(d: Document): seq<byte> { Header(d) + Block(d.signatures) + Body(d) }

  /** Everything but the signature block, the number of signatures included. */
  function SignedBytes(d: Document): seq<byte> { Header(d) + Body(d) }

  function ParseBlock(bs: seq<byte>, n: nat): (es: seq<Entry>)
    requires |bs| == 96 * n
    ensures |es| == n
  {
    if n == 0 then [] else [Entry(bs[..32], bs[32..96])] + ParseBlock(bs[96..], n - 1)
  }

  function ParseBody(body: seq<byte>): (r: Option<seq<Relay>>)
    ensures r.Some? ==> |r.value| < 0x1_0000_0000
  {
    FieldSizes();
    if |body| < 4 then None else ParseRelays(body[4..], FromBigEndian(body[..4]))
  }

  function Parse(bs: seq<byte>): Option<Document>
  {
    if |bs| < 26 || bs[0] != VERSION || |bs| < 30 + 96 * bs[25] as nat then None else
    var n := bs[25] as nat;
    FieldSizes();
    match ParseBody(bs[26 + 96 * n..])
    case None => None
    case Some(relays) =>
      Some(Document(FromBigEndian(bs[1..9]), FromBigEndian(bs[9..17]), FromBigEndian(bs[17..25]),
                    ParseBlock(bs[26..26 + 96 * n], n), relays))
  }

  lemma HeaderFields(d: Document)
    ensures var h := Header(d);
      && h[0] == VERSION && h[25] == |d.signatures| as byte
      && FromBigEndian(h[1..9]) == d.validAfter && FromBigEndian(h[9..17]) == d.freshUntil
      && FromBigEndian(h[17..25]) == d.validUntil
  {
    FieldSizes();
    BigEndianRoundTrip(d.validAfter, 8);
    BigEndianRoundTrip(d.freshUntil, 8);
    BigEndianRoundTrip(d.validUntil, 8);
    HeaderSlices([VERSION], BigEndian(d.validAfter, 8), BigEndian(d.freshUntil, 8), BigEndian(d.validUntil, 8), [|d.signatures| as byte]);
  }

  lemma HeaderSlices(v: seq<byte>, a: seq<byte>, b: seq<byte>, c: seq<byte>, n: seq<byte>)
    requires |v| == |n| == 1 && |a| == |b| == |c| == 8
    ensures var h := v + a + b + c + n; h[0] == v[0] && h[1..9] == a && h[9..17] == b && h[17..25] == c && h[25] == n[0]
  {
  }

  lemma ParseEncodedBody(d: Document)
    ensures ParseBody(Body(d)) == Some(d.relays)
  {
    FieldSizes();
    BigEndianRoundTrip(|d.relays|, 4);
    assert Body(d)[..4] == BigEndian(|d.relays|, 4) && Body(d)[4..] == EncodeRelays(d.relays);
    ParseEncodedRelays(d.relays);
  }

  lemma {:induction false} ParseEncodedBlock(entries: seq<Entry>)
    ensures ParseBlock(Block(entries), |entries|) == entries
  {
    if entries != [] {
      var bs := Block(entries);
      assert bs[..32] == entries[0].da && bs[32..96] == entries[0].signature && bs[96..] == Block(entries[1..]);
      ParseEncodedBlock(entries[1..]);
      assert entries == [entries[0]] + entries[1..];
    }
  }

  lemma {:induction false} ParsedBlockEncodes(bs: seq<byte>, n: nat)
    requires |bs| == 96 * n
    ensures Block(ParseBlock(bs, n)) == bs
  {
    if n > 0 {
      var es := ParseBlock(bs, n);
      ParsedBlockEncodes(bs[96..], n - 1);
      assert es[1..] == ParseBlock(bs[96..], n - 1);
      assert bs == bs[..32] + bs[32..96] + bs[96..];
    }
  }

  lemma DocumentSlices(h: seq<byte>, block: seq<byte>, body: seq<byte>, n: nat)
    requires |h| == 26 && |block| == 96 * n
    ensures var bs := h + block + body;
      && bs[26..26 + 96 * n] == block && bs[26 + 96 * n..] == body && bs[0] == h[0] && bs[25] == h[25]
      && bs[1..9] == h[1..9] && bs[9..17] == h[9..17] && bs[17..25] == h[17..25]
  {
  }

  /** A document survives its encoding, relays and signatures included. */
  lemma ParseEncoded(d: Document)
    ensures Parse(Encode(d)) == Some(d)
  {
    DocumentSlices(Header(d), Block(d.signatures), Body(d), |d.signatures|);
    HeaderFields(d);
    ParseEncodedBlock(d.signatures);
    ParseEncodedBody(d);
  }

  lemma HeaderBack(d: Document, h: seq<byte>)
    requires |h| == 26 && h[0] == VERSION && h[25] as nat == |d.signatures|
    requires FromBigEndian(h[1..9]) == d.validAfter && FromBigEndian(h[9..17]) == d.freshUntil && FromBigEndian(h[17..25]) == d.validUntil
    ensures Header(d) == h
  {
    FromBigEndianRoundTrip(h[1..9]);
    FromBigEndianRoundTrip(h[9..17]);
    FromBigEndianRoundTrip(h[17..25]);
    assert h == [h[0]] + h[1..9] + h[9..17] + h[17..25] + [h[25]];
  }

  lemma BodyBack(body: seq<byte>)
    requires ParseBody(body).Some?
    ensures BigEndian(|ParseBody(body).value|, 4) + EncodeRelays(ParseBody(body).value) == body
  {
    ParsedRelaysEncode(body[4..], FromBigEndian(body[..4]), ParseBody(body).value);
    FromBigEndianRoundTrip(body[..4]);
    TakeDrop(body, 4);
  }

  lemma Cut3(bs: seq<byte>, n: nat)
    requires 26 + 96 * n <= |bs|
    ensures bs[..26] + bs[26..26 + 96 * n] + bs[26 + 96 * n..] == bs
    ensures var h := bs[..26]; h[0] == bs[0] && h[25] == bs[25] && h[1..9] == bs[1..9] && h[9..17] == bs[9..17] && h[17..25] == bs[17..25]
  {
  }

  /** Whatever parses is the encoding of what it parses to: the format is a bijection. */
  lemma EncodeParsed(bs: seq<byte>)
    requires Parse(bs).Some?
    ensures Encode(Parse(bs).value) == bs
  {
    var d, n := Parse(bs).value, bs[25] as nat;
    Cut3(bs, n);
    HeaderBack(d, bs[..26]);
    ParsedBlockEncodes(bs[26..26 + 96 * n], n);
    BodyBack(bs[26 + 96 * n..]);
  }

  /** The signed bytes fix the whole document up to which signatures fill its signature block. */
  lemma SignedBytesDetermine(a: Document, b: Document)
    ensures SignedBytes(a) == SignedBytes(b) <==> a == b.(signatures := a.signatures) && |a.signatures| == |b.signatures|
  {
    if SignedBytes(a) == SignedBytes(b) {
      assert Header(a) == SignedBytes(a)[..26] == SignedBytes(b)[..26] == Header(b);
      assert Body(a) == SignedBytes(a)[26..] == SignedBytes(b)[26..] == Body(b);
      HeaderFields(a); HeaderFields(b);
      ParseEncodedBody(a); ParseEncodedBody(b);
    }
  }

  /** The signed bytes are the document's without its signature block. */
  lemma SignedBytesAreRest(d: Document)
    ensures var bs, n := Encode(d), |d.signatures|;
      |bs| >= 30 + 96 * n && SignedBytes(d) == bs[..26] + bs[26 + 96 * n..]
  {
    DocumentSlices(Header(d), Block(d.signatures), Body(d), |d.signatures|);
    assert Encode(d)[..26] == Header(d);
  }

  lemma ZerosIff(bs: seq<byte>)
    ensures bs == Zeros(|bs|) <==> forall k :: 0 <= k < |bs| ==> bs[k] == 0
  {
  }

  /** Every relay of a document that parses has six or eighteen bytes not all zero for an address, if it has one, and an
      exit policy that parses, if it has one; a single one that does not makes the document unreadable. */
  lemma ParsedRelaysAreValid(bs: seq<byte>, i: nat)
    requires Parse(bs).Some? && i < |Parse(bs).value.relays|
    ensures var r := Parse(bs).value.relays[i];
      && (r.ipv4.Some? ==> |r.ipv4.value| == 6 && exists k :: 0 <= k < 6 && r.ipv4.value[k] != 0)
      && (r.ipv6.Some? ==> |r.ipv6.value| == 18 && exists k :: 0 <= k < 18 && r.ipv6.value[k] != 0)
      && (r.policy != [] ==> ExitPolicy.ParsePolicy(r.policy).Some?)
  {
    var r := Parse(bs).value.relays[i];
    if r.ipv4.Some? { ZerosIff(r.ipv4.value); }
    if r.ipv6.Some? { ZerosIff(r.ipv6.value); }
  }

  // ----- Where the fields stand -----

  /** A relay's bytes: three keys, two addresses with zeros for none, flags, and the policy behind its length. */
  lemma RelayLayout(r: Relay)
    ensures var bs := EncodeRelay(r);
      && |bs| == 124 + |r.policy| && bs[..32] == r.fingerprint && bs[32..64] == r.idPk && bs[64..96] == r.onionPk
      && bs[96..102] == (if r.ipv4.Some? then r.ipv4.value else Zeros(6)) && bs[102..120] == (if r.ipv6.Some? then r.ipv6.value else Zeros(18))
      && FromBigEndian(bs[120..122]) == r.flags && FromBigEndian(bs[122..124]) == |r.policy| && bs[124..] == r.policy
  {
    var bs := EncodeRelay(r);
    Split3(Keys(r), Addresses(r), Numbers(r), r.policy);
    KeyFields(r);
    NumberFields(r);
    assert bs[..32] == bs[..96][..32] && bs[32..64] == bs[..96][32..64] && bs[64..96] == bs[..96][64..];
    assert bs[96..102] == bs[96..120][..6] && bs[102..120] == bs[96..120][6..];
    assert bs[120..122] == bs[120..124][..2] && bs[122..124] == bs[120..124][2..];
  }

  /** A document's: version, three times, the number of signatures, the signatures, the number of relays, the relays. */
  lemma DocumentLayout(d: Document)
    ensures var bs, n := Encode(d), |d.signatures|;
      && |bs| >= 30 + 96 * n && bs[0] == 2 && FromBigEndian(bs[1..9]) == d.validAfter && FromBigEndian(bs[9..17]) == d.freshUntil
      && FromBigEndian(bs[17..25]) == d.validUntil && bs[25] as nat == n && bs[26..26 + 96 * n] == Block(d.signatures)
      && FromBigEndian(bs[26 + 96 * n..30 + 96 * n]) == |d.relays| && bs[30 + 96 * n..] == EncodeRelays(d.relays)
  {
    var bs, n := Encode(d), |d.signatures|;
    DocumentSlices(Header(d), Block(d.signatures), Body(d), n);
    HeaderFields(d);
    FieldSizes();
    BigEndianRoundTrip(|d.relays|, 4);
    var body := Body(d);
    assert bs[26 + 96 * n..] == body;
    assert bs[26 + 96 * n..30 + 96 * n] == body[..4] == BigEndian(|d.relays|, 4);
    assert bs[30 + 96 * n..] == body[4..] == EncodeRelays(d.relays);
  }

  /** A signature pair: the authority's fingerprint, then its signature. */
  lemma {:induction false} PairLayout(entries: seq<Entry>, i: nat)
    requires i < |entries|
    ensures var bs := Block(entries); bs[96 * i..96 * i + 32] == entries[i].da && bs[96 * i + 32..96 * i + 96] == entries[i].signature
  {
    var bs, rest := Block(entries), Block(entries[1..]);
    assert bs == entries[0].da + entries[0].signature + rest;
    if i == 0 {
      assert bs[0..32] == entries[0].da && bs[32..96] == entries[0].signature;
    } else {
      PairLayout(entries[1..], i - 1);
      var j := 96 * (i - 1);
      assert bs[96..] == rest;
      assert bs[96 * i..96 * i + 32] == rest[j..j + 32] && bs[96 * i + 32..96 * i + 96] == rest[j + 32..j + 96];
    }
  }

  // ----- Acceptance -----

  /** The client's trust set, and Ed25519 verification of a signature over a message under a key. */
  datatype Trust = Trust(keys: map<Fingerprint, seq<byte>>, verify: (seq<byte>, seq<byte>, Signature) -> bool)

  /** The fingerprint of pair `i` does not stand before it. */
  predicate First(d: Document, i: nat)
    requires i < |d.signatures|
  {
    forall j :: 0 <= j < i ==> d.signatures[j].da != d.signatures[i].da
  }

  predicate Verifies(t: Trust, d: Document, i: nat)
    requires i < |d.signatures|
  {
    var e := d.signatures[i];
    e.da in t.keys && t.verify(t.keys[e.da], SignedBytes(d), e.signature)
  }

  /** Each fingerprint has one chance: its first pair is looked at and later ones are skipped. */
  predicate Counts(t: Trust, d: Document, i: nat)
    requires i < |d.signatures|
  {
    First(d, i) && Verifies(t, d, i)
  }

  function VerifiedCount(t: Trust, d: Document, n: nat): nat
    requires n <= |d.signatures|
  {
    if n == 0 then 0 else VerifiedCount(t, d, n - 1) + if Counts(t, d, n - 1) then 1 else 0
  }

  function Quorum(t: Trust): nat { |t.keys| / 2 + 1 }

  predicate Accepts(t: Trust, d: Document, now: nat)
  {
    d.validAfter <= now <= d.validUntil && VerifiedCount(t, d, |d.signatures|) >= Quorum(t)
  }

  function ParseConsensus(t: Trust, bs: seq<byte>, now: nat): Option<Document>
  {
    match Parse(bs)
    case None => None
    case Some(d) => if Accepts(t, d, now) then Some(d) else None
  }

  /** The client's loop over the signature block, with the set of fingerprints seen. */
  method CountSignatures(t: Trust, d: Document) returns (count: nat)
    ensures count == VerifiedCount(t, d, |d.signatures|)
  {
    var seen: set<Fingerprint>;
    count, seen := 0, {};
    var signed := SignedBytes(d);
    for i := 0 to |d.signatures|
      invariant count == VerifiedCount(t, d, i)
      invariant forall da :: da in seen <==> exists j :: 0 <= j < i && d.signatures[j].da == da
    {
      var e := d.signatures[i];
      assert e.da !in seen <==> First(d, i);
      if e.da !in seen {
        seen := seen + {e.da};
        if e.da in t.keys && t.verify(t.keys[e.da], signed, e.signature) { count := count + 1; }
      }
    }
  }

  /** The authorities counted among the first `n` pairs. */
  function Signers(t: Trust, d: Document, n: nat): (s: set<Fingerprint>)
    requires n <= |d.signatures|
    ensures s <= t.keys.Keys
  {
    if n == 0 then {} else Signers(t, d, n - 1) + if Counts(t, d, n - 1) then {d.signatures[n - 1].da} else {}
  }

  function AllSigners(t: Trust, d: Document): (s: set<Fingerprint>)
    ensures s <= t.keys.Keys
  {
    Signers(t, d, |d.signatures|)
  }

  lemma {:induction false} SignerPair(t: Trust, d: Document, n: nat, da: Fingerprint)
    requires n <= |d.signatures|
    ensures da in Signers(t, d, n) <==> exists i :: 0 <= i < n && Counts(t, d, i) && d.signatures[i].da == da
  {
    if n > 0 { SignerPair(t, d, n - 1, da); }
  }

  lemma NewSigner(t: Trust, d: Document, n: nat)
    requires n < |d.signatures| && First(d, n)
    ensures d.signatures[n].da !in Signers(t, d, n)
  {
    SignerPair(t, d, n, d.signatures[n].da);
  }

  /** What the client compares with the quorum is the number of distinct authorities counted, whatever is
      repeated in the block. */
  lemma {:induction false} CountIsSigners(t: Trust, d: Document, n: nat)
    requires n <= |d.signatures|
    ensures VerifiedCount(t, d, n) == |Signers(t, d, n)|
  {
    if n > 0 {
      CountIsSigners(t, d, n - 1);
      if Counts(t, d, n - 1) { NewSigner(t, d, n - 1); }
    }
  }

  /** Accepted in its time exactly with more than half of the trusted authorities counted. */
  lemma AcceptsIffMajority(t: Trust, d: Document, now: nat)
    ensures Accepts(t, d, now) <==> d.validAfter <= now <= d.validUntil && 2 * |AllSigners(t, d)| > |t.keys|
  {
    CountIsSigners(t, d, |d.signatures|);
  }

  /** Bytes are taken for a document exactly if they are its encoding, its time has come and is not over, and a
      majority is counted. */
  lemma ConsensusIff(t: Trust, bs: seq<byte>, now: nat, d: Document)
    ensures ParseConsensus(t, bs, now) == Some(d) <==>
      bs == Encode(d) && d.validAfter <= now <= d.validUntil && 2 * |AllSigners(t, d)| > |t.keys|
  {
    AcceptsIffMajority(t, d, now);
    if Parse(bs).Some? { EncodeParsed(bs); }
    ParseEncoded(d);
  }

  /** Two documents accepted under one trust set share an authority that signed both. */
  lemma AcceptedShareASigner(t: Trust, a: Document, b: Document, now: nat, then': nat) returns (da: Fingerprint)
    requires Accepts(t, a, now) && Accepts(t, b, then')
    ensures da in AllSigners(t, a) && da in AllSigners(t, b)
  {
    CountIsSigners(t, a, |a.signatures|);
    CountIsSigners(t, b, |b.signatures|);
    Overlap(AllSigners(t, a), AllSigners(t, b), t.keys.Keys);
    da :| da in AllSigners(t, a) && da in AllSigners(t, b);
  }

  lemma Overlap<T>(x: set<T>, y: set<T>, all: set<T>)
    requires x <= all && y <= all && |x| + |y| > |all|
    ensures x * y != {}
  {
    Size(x + y, all);
    assert |x + y| == |x| + |y| - |x * y|;
  }

  lemma Size<T>(x: set<T>, all: set<T>)
    requires x <= all
    ensures |x| <= |all|
  {
    assert x + (all - x) == all;
  }

  /** What the authorities have put their signatures to. */
  type Ledger = (Fingerprint, seq<byte>) -> bool

  /** Ideal signatures: only what an authority signed verifies under its key. */
  ghost predicate Unforgeable(t: Trust, signed: Ledger)
  {
    forall da, m, s :: da in t.keys && t.verify(t.keys[da], m, s) ==> signed(da, m)
  }

  predicate Overlapping(a: Document, b: Document) { a.validAfter <= b.validUntil && b.validAfter <= a.validUntil }

  /** No authority signs two different documents whose validity intervals overlap. */
  ghost predicate SignsOncePerPeriod(t: Trust, signed: Ledger)
  {
    forall da, a: Document, b: Document ::
      da in t.keys && signed(da, SignedBytes(a)) && signed(da, SignedBytes(b)) && Overlapping(a, b)
      ==> SignedBytes(a) == SignedBytes(b)
  }

  lemma SignerSigned(t: Trust, signed: Ledger, d: Document, da: Fingerprint)
    requires Unforgeable(t, signed) && da in AllSigners(t, d)
    ensures da in t.keys && signed(da, SignedBytes(d))
  {
    SignerPair(t, d, |d.signatures|, da);
  }

  lemma SignedOnce(t: Trust, signed: Ledger, da: Fingerprint, a: Document, b: Document)
    requires SignsOncePerPeriod(t, signed) && Overlapping(a, b)
    requires da in t.keys && signed(da, SignedBytes(a)) && signed(da, SignedBytes(b))
    ensures SignedBytes(a) == SignedBytes(b)
  {
  }

  /** At most one document content is acceptable at any time. */
  lemma AtMostOneAcceptable(t: Trust, signed: Ledger, a: Document, b: Document, now: nat)
    requires Unforgeable(t, signed) && SignsOncePerPeriod(t, signed)
    requires Accepts(t, a, now) && Accepts(t, b, now)
    ensures a == b.(signatures := a.signatures) && |a.signatures| == |b.signatures|
  {
    var da := AcceptedShareASigner(t, a, b, now, now);
    SignerSigned(t, signed, a, da);
    SignerSigned(t, signed, b, da);
    SignedOnce(t, signed, da, a, b);
    SignedBytesDetermine(a, b);
  }

  // ----- Repeated fingerprints -----

  /** The fingerprints that stand in the signature block. */
  function Named(d: Document, n: nat): set<Fingerprint>
    requires n <= |d.signatures|
  {
    set i | 0 <= i < n :: d.signatures[i].da
  }

  /** Repeating pairs does not help: a document that names fewer authorities than a quorum is refused. */
  lemma StuffingIsRefused(t: Trust, d: Document, now: nat)
    requires |Named(d, |d.signatures|)| < Quorum(t)
    ensures !Accepts(t, d, now)
  {
    var n := |d.signatures|;
    CountIsSigners(t, d, n);
    forall da | da in AllSigners(t, d) ensures da in Named(d, n) { SignerPair(t, d, n, da); }
    Size(AllSigners(t, d), Named(d, n));
  }

  /** One authority's pair, however often, is refused by every client that trusts two or more. */
  lemma CopiesAreRefused(t: Trust, d: Document, e: Entry, now: nat)
    requires |t.keys| >= 2 && forall i :: 0 <= i < |d.signatures| ==> d.signatures[i] == e
    ensures !Accepts(t, d, now)
  {
    Size(Named(d, |d.signatures|), {e.da});
    StuffingIsRefused(t, d, now);
  }

  /** Pair `i` does not verify, is looked at, and so hides pair `j` of the same authority, which would verify. */
  ghost predicate Hides(t: Trust, d: Document, i: nat, j: nat)
  {
    && i < j < |d.signatures| && First(d, i) && d.signatures[i].da == d.signatures[j].da
    && !Verifies(t, d, i) && Verifies(t, d, j)
  }

  /** The authority has a pair that verifies. */
  ghost predicate Signed(t: Trust, d: Document, da: Fingerprint)
  {
    exists j :: 0 <= j < |d.signatures| && d.signatures[j].da == da && Verifies(t, d, j)
  }

  lemma {:induction false} FirstOf(d: Document, j: nat) returns (i: nat)
    requires j < |d.signatures|
    ensures i <= j && First(d, i) && d.signatures[i].da == d.signatures[j].da
  {
    if First(d, j) {
      i := j;
    } else {
      var k :| 0 <= k < j && d.signatures[k].da == d.signatures[j].da;
      i := FirstOf(d, k);
    }
  }

  lemma HiddenIsUncounted(t: Trust, d: Document, i: nat, j: nat)
    requires Hides(t, d, i, j)
    ensures Signed(t, d, d.signatures[j].da) && d.signatures[j].da !in AllSigners(t, d)
  {
    var da := d.signatures[j].da;
    SignerPair(t, d, |d.signatures|, da);
    forall k | 0 <= k < |d.signatures| && Counts(t, d, k) ensures d.signatures[k].da != da {
      assert k < i ==> d.signatures[k].da != d.signatures[i].da;
      assert i < k ==> d.signatures[i].da != d.signatures[k].da;
    }
  }

  lemma UncountedIsHidden(t: Trust, d: Document, da: Fingerprint) returns (i: nat, j: nat)
    requires Signed(t, d, da) && da !in AllSigners(t, d)
    ensures Hides(t, d, i, j) && d.signatures[j].da == da
  {
    j :| 0 <= j < |d.signatures| && d.signatures[j].da == da && Verifies(t, d, j);
    i := FirstOf(d, j);
    SignerPair(t, d, |d.signatures|, da);
    assert !Counts(t, d, i);
  }

  /** Whoever is counted has signed. Whoever has signed is counted, exactly unless a pair in its name that does
      not verify stands before every one that does. */
  lemma CountedUnlessHidden(t: Trust, d: Document, da: Fingerprint)
    ensures da in AllSigners(t, d) ==> Signed(t, d, da)
    ensures Signed(t, d, da) && da !in AllSigners(t, d) <==> exists i: nat, j: nat :: Hides(t, d, i, j) && d.signatures[j].da == da
  {
    SignerPair(t, d, |d.signatures|, da);
    if Signed(t, d, da) && da !in AllSigners(t, d) { var i, j := UncountedIsHidden(t, d, da); }
    if i: nat, j: nat :| Hides(t, d, i, j) && d.signatures[j].da == da { HiddenIsUncounted(t, d, i, j); }
  }

  /** Every authority that signed is counted exactly if no pair hides another. */
  lemma AllCountedIff(t: Trust, d: Document)
    ensures (forall da :: Signed(t, d, da) ==> da in AllSigners(t, d)) <==> !exists i: nat, j: nat :: Hides(t, d, i, j)
  {
    if i: nat, j: nat :| Hides(t, d, i, j) { HiddenIsUncounted(t, d, i, j); }
    if da :| Signed(t, d, da) && da !in AllSigners(t, d) { var i, j := UncountedIsHidden(t, d, da); }
  }

  /** A document that more than half of the trusted authorities signed is accepted in its time, if no failing pair
      hides one of them. */
  lemma MajorityIsAccepted(t: Trust, d: Document, now: nat, das: set<Fingerprint>)
    requires d.validAfter <= now <= d.validUntil && 2 * |das| > |t.keys|
    requires (forall da :: da in das ==> Signed(t, d, da)) && !exists i: nat, j: nat :: Hides(t, d, i, j)
    ensures Accepts(t, d, now)
  {
    AllCountedIff(t, d);
    Size(das, AllSigners(t, d));
    AcceptsIffMajority(t, d, now);
  }
}
