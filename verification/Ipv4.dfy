/** IPv4 transport addresses: dotted quads and ports against six bytes, in the three places that do it. */
module Ipv4 {
  import opened Bytes
  import opened Decimals

  type Quad = q: seq<byte> | |q| == 4 witness Zeros(4)
  type Address = a: seq<byte> | |a| == 6 witness Zeros(6)
  type Port = p: nat | p < 0x1_0000

  // ----- Splitting at dots -----

  function Split(s: string): (parts: seq<string>)
    ensures parts != []
  {
    if s == "" then [""]
    else
      var rest := Split(s[1..]);
      if s[0] == '.' then [""] + rest else [[s[0]] + rest[0]] + rest[1..]
  }

  function Join(parts: seq<string>): string
    requires parts != []
  {
    if |parts| == 1 then parts[0] else parts[0] + "." + Join(parts[1..])
  }

  lemma {:induction false} JoinSplit(s: string)
    ensures Join(Split(s)) == s
    ensures forall i :: 0 <= i < |Split(s)| ==> '.' !in Split(s)[i]
  {
    if s != "" {
      JoinSplit(s[1..]);
      var rest := Split(s[1..]);
      if s[0] == '.' {
        assert Split(s)[1..] == rest;
        assert s == "" + "." + s[1..];
      } else {
        assert Split(s)[1..] == rest[1..];
        if |rest| > 1 { assert ([s[0]] + rest[0]) + "." + Join(rest[1..]) == [s[0]] + (rest[0] + "." + Join(rest[1..])); }
        assert s == [s[0]] + s[1..];
      }
    }
  }

  lemma {:induction false} SplitHead(head: string, tail: string)
    requires '.' !in head
    ensures Split(head) == [head]
    ensures Split(head + "." + tail) == [head] + Split(tail)
  {
    var s := head + "." + tail;
    if head == "" {
      assert s[1..] == tail;
    } else {
      SplitHead(head[1..], tail);
      assert s[1..] == head[1..] + "." + tail && s[0] == head[0];
      assert [head[0]] + head[1..] == head;
      assert ([head[1..]] + Split(tail))[1..] == Split(tail);
    }
  }

  lemma {:induction false} SplitJoin(parts: seq<string>)
    requires parts != [] && forall i :: 0 <= i < |parts| ==> '.' !in parts[i]
    ensures Split(Join(parts)) == parts
  {
    if |parts| == 1 {
      SplitHead(parts[0], "");
    } else {
      SplitJoin(parts[1..]);
      SplitHead(parts[0], Join(parts[1..]));
      assert parts == [parts[0]] + parts[1..];
    }
  }

  // ----- Octets -----

  predicate IsSpace(c: char)
  {
    '\U{0009}' <= c <= '\U{000D}' || c == ' ' || c == '\U{00A0}' || c == '\U{1680}' || '\U{2000}' <= c <= '\U{200A}'
    || c == '\U{2028}' || c == '\U{2029}' || c == '\U{202F}' || c == '\U{205F}' || c == '\U{3000}' || c == '\U{FEFF}'
  }

  function DigitPrefix(s: string): (n: nat)
    ensures n <= |s| && AllDigits(s[..n]) && (n < |s| ==> !IsDigit(s[n]))
  {
    if s == "" || !IsDigit(s[0]) then 0 else
    var n := DigitPrefix(s[1..]);
    assert forall c :: c in s[..n + 1] ==> c == s[0] || c in s[1..][..n];
    n + 1
  }

  /** parseInt with radix 10: white space, a sign, then as many digits as there are; None is NaN. */
  function ParseInt(s: string): Option<int>
  {
    if s != "" && IsSpace(s[0]) then ParseInt(s[1..]) else
    var negative := "-" <= s;
    var digits := if negative || "+" <= s then s[1..] else s;
    var n := DigitPrefix(digits);
    var v: int := Value(digits[..n]);
    if n == 0 then None else Some(if negative then -v else v)
  }

  function ParseOctet(s: string): Option<byte>
  {
    match ParseInt(s)
    case None => None
    case Some(n) => if n < 0 || n > 255 || Decimal(n) != s then None else Some(n as byte)
  }

  lemma AllDigitsParse(s: string)
    requires s != "" && AllDigits(s)
    ensures ParseInt(s) == Some(Value(s))
  {
    assert s[0] in s;
    AllDigitsPrefix(s);
    assert s[..|s|] == s;
  }

  /** An octet parses exactly if it is printed the one canonical way. */
  lemma OctetIff(s: string, b: byte)
    ensures ParseOctet(s) == Some(b) <==> s == Decimal(b as nat)
  {
    if s == Decimal(b as nat) {
      AllDigitsParse(s);
      ValueOfDecimal(b as nat);
    }
  }

  // ----- Dotted quads -----

  function Octets(q: Quad): (parts: seq<string>)
    ensures |parts| == 4
  {
    [Decimal(q[0] as nat), Decimal(q[1] as nat), Decimal(q[2] as nat), Decimal(q[3] as nat)]
  }

  function Dotted(q: Quad): string { Join(Octets(q)) }

  /** What parseIPv4 yields. */
  function ParseQuad(s: string): Option<Quad>
  {
    var parts := Split(s);
    if |parts| != 4 || exists i :: 0 <= i < 4 && ParseOctet(parts[i]).None? then None
    else Some(seq(4, i requires 0 <= i < 4 => ParseOctet(parts[i]).value))
  }

  method ParseIPv4(s: string) returns (r: Option<Quad>)
    ensures r == ParseQuad(s)
  {
    var parts := Split(s);
    if |parts| != 4 { return None; }
    var out := new byte[4];
    for i := 0 to 4
      invariant forall j :: 0 <= j < i ==> ParseOctet(parts[j]) == Some(out[j])
    {
      var n := ParseInt(parts[i]);
      if n.None? || n.value < 0 || n.value > 255 || Decimal(n.value) != parts[i] {
        assert ParseOctet(parts[i]).None?;
        return None;
      }
      out[i] := n.value as byte;
    }
    r := Some(out[..]);
    assert ParseQuad(s).Some? && out[..] == ParseQuad(s).value;
  }

  lemma PrintedParses(q: Quad)
    ensures ParseQuad(Dotted(q)) == Some(q)
  {
    var parts := Octets(q);
    forall i | 0 <= i < 4 ensures '.' !in parts[i] && ParseOctet(parts[i]) == Some(q[i]) { OctetIff(parts[i], q[i]); }
    SplitJoin(parts);
    assert ParseQuad(Dotted(q)).value == q;
  }

  lemma ParsedPrints(s: string)
    requires ParseQuad(s).Some?
    ensures s == Dotted(ParseQuad(s).value)
  {
    var parts, q := Split(s), ParseQuad(s).value;
    JoinSplit(s);
    forall i | 0 <= i < 4 ensures parts[i] == Octets(q)[i] {
      assert ParseOctet(parts[i]) == Some(q[i]);
      OctetIff(parts[i], q[i]);
    }
    assert parts == Octets(q);
  }

  /** Exactly the printed quads parse, each to the quad it prints: a bijection. */
  lemma QuadIff(s: string, q: Quad)
    ensures ParseQuad(s) == Some(q) <==> s == Dotted(q)
  {
    PrintedParses(q);
    if ParseQuad(s).Some? { ParsedPrints(s); }
  }

  // ----- Six bytes -----

  /** The packing of `share`: four address bytes, then the port's two low bytes, high one first. */
  function Pack(q: Quad, port: nat): Address { q + [(port / 256 % 256) as byte, (port % 256) as byte] }

  datatype Transport = Transport(webSocketIPv4: bool, address: seq<byte>)
  datatype Dial = Dial(host: string, port: Port)

  function Unpack(a: Address): Dial { Dial(Dotted(a[..4]), 256 * a[4] as nat + a[5] as nat) }

  predicate Usable(t: Transport) { t.webSocketIPv4 && |t.address| == 6 }

  function CountUsable(ts: seq<Transport>): nat
  {
    if ts == [] then 0 else CountUsable(ts[..|ts| - 1]) + if Usable(ts[|ts| - 1]) then 1 else 0
  }

  function Dialable(ts: seq<Transport>): (ds: seq<Dial>)
    ensures |ds| == CountUsable(ts)
  {
    if ts == [] then [] else
    var t := ts[|ts| - 1];
    Dialable(ts[..|ts| - 1]) + if Usable(t) then [Unpack(t.address)] else []
  }

  /** One transport more is dialled exactly if it is a WebSocket one over IPv4 with six address bytes: at the four
      bytes printed and the port of the other two, the high one first. */
  lemma OneMoreTransport(ts: seq<Transport>, t: Transport)
    ensures Dialable(ts + [t]) == Dialable(ts) +
      if t.webSocketIPv4 && |t.address| == 6
      then [Dial(Dotted(t.address[..4]), 256 * t.address[4] as nat + t.address[5] as nat)] else []
  {
    assert (ts + [t])[..|ts|] == ts;
  }

  /** Each usable transport is dialled at the place the usable ones before it leave it. */
  lemma {:induction false} DialableInOrder(ts: seq<Transport>, k: nat)
    requires k < |ts| && Usable(ts[k])
    ensures CountUsable(ts[..k]) < |Dialable(ts)| && Dialable(ts)[CountUsable(ts[..k])] == Unpack(ts[k].address)
  {
    var n := |ts| - 1;
    if k < n {
      assert ts[..n][..k] == ts[..k];
      DialableInOrder(ts[..n], k);
    }
  }

  /** Every usable transport once, in order; others are skipped. */
  method PickDialAddresses(ts: seq<Transport>) returns (out: seq<Dial>)
    ensures out == Dialable(ts)
  {
    out := [];
    for i := 0 to |ts|
      invariant out == Dialable(ts[..i])
    {
      var t := ts[i];
      assert ts[..i + 1][..i] == ts[..i];
      if Usable(t) {
        var host := Decimal(t.address[0] as nat) + "." + Decimal(t.address[1] as nat) + "." + Decimal(t.address[2] as nat) + "." + Decimal(t.address[3] as nat);
        DottedIs(t.address[..4]);
        out := out + [Dial(host, 256 * t.address[4] as nat + t.address[5] as nat)];
      }
    }
    assert ts[..|ts|] == ts;
  }

  lemma DottedIs(q: Quad)
    ensures Dotted(q) == Decimal(q[0] as nat) + "." + Decimal(q[1] as nat) + "." + Decimal(q[2] as nat) + "." + Decimal(q[3] as nat)
  {
    var p := Octets(q);
    assert p[1..] == [p[1], p[2], p[3]] && p[1..][1..] == [p[2], p[3]] && p[1..][1..][1..] == [p[3]];
    assert Join([p[3]]) == p[3];
    assert Join([p[2], p[3]]) == p[2] + "." + p[3];
    assert Join([p[1], p[2], p[3]]) == p[1] + "." + Join([p[2], p[3]]);
    assert Join(p) == p[0] + "." + Join([p[1], p[2], p[3]]);
    assert p[0] + "." + (p[1] + "." + (p[2] + "." + p[3])) == p[0] + "." + p[1] + "." + p[2] + "." + p[3];
  }

  /** What is shared is what is dialled, and what is dialled shares as the same six bytes. */
  lemma SharedIsDialled(q: Quad, port: Port)
    ensures Unpack(Pack(q, port)) == Dial(Dotted(q), port)
  {
    assert Pack(q, port)[..4] == q;
  }

  lemma DialledIsShared(a: Address)
    ensures ParseQuad(Dotted(a[..4])) == Some(a[..4])
    ensures Pack(a[..4], Unpack(a).port) == a
  {
    PrintedParses(a[..4]);
    PackedBack(a);
  }

  lemma PackedBack(a: Address)
    ensures Pack(a[..4], 256 * a[4] as nat + a[5] as nat) == a
  {
    PortBytes(a[4], a[5]);
    assert a == a[..4] + [a[4], a[5]];
  }

  lemma PortBytes(hi: byte, lo: byte)
    ensures var port := 256 * hi as nat + lo as nat; port / 256 % 256 == hi as nat && port % 256 == lo as nat
  {
  }

  // ----- The consensus builder's parser -----

  /** One to three digits of value at most 255, leading zeros allowed. */
  predicate Numeral(s: string)
  {
    1 <= |s| <= 3 && DigitPrefix(s) == |s| && (assert s[..|s|] == s; Value(s) <= 255)
  }

  function NumeralValue(s: string): byte
    requires Numeral(s)
  {
    assert s[..|s|] == s;
    Value(s) as byte
  }

  function ParseHost(host: string): Option<Quad>
  {
    var p := Split(host);
    if |p| != 4 || exists i :: 0 <= i < 4 && !Numeral(p[i]) then None
    else Some(seq(4, i requires 0 <= i < 4 => NumeralValue(p[i])))
  }

  function ParseHostPort(host: string, port: int): Option<Address>
  {
    if ParseHost(host).None? || port < 1 || port > 65535 then None else Some(Pack(ParseHost(host).value, port))
  }

  method HostPortBytes(host: string, port: int) returns (r: Option<Address>)
    ensures r == ParseHostPort(host, port)
  {
    var parts := Split(host);
    if |parts| != 4 { return None; }
    var out := new byte[6];
    for i := 0 to 4
      invariant forall j :: 0 <= j < i ==> Numeral(parts[j]) && out[j] == NumeralValue(parts[j])
    {
      if !Numeral(parts[i]) { return None; }
      out[i] := NumeralValue(parts[i]);
    }
    if port < 1 || port > 65535 { return None; }
    out[4], out[5] := (port / 256 % 256) as byte, (port % 256) as byte;
    r := Some(out[..]);
    assert out[..4] == ParseHost(host).value;
    assert out[..] == Pack(ParseHost(host).value, port);
  }

  predicate LeadingZero(s: string) { |s| > 1 && s[0] == '0' }

  lemma NumeralOctet(s: string)
    ensures ParseOctet(s).Some? <==> Numeral(s) && !LeadingZero(s)
    ensures ParseOctet(s).Some? ==> ParseOctet(s).value == NumeralValue(s)
  {
    if ParseOctet(s).Some? {
      var b := ParseOctet(s).value;
      OctetIff(s, b);
      ValueOfDecimal(b as nat);
      CanonicalIff(s);
      AllDigitsPrefix(s);
    }
    if Numeral(s) && !LeadingZero(s) {
      assert s[..|s|] == s;
      CanonicalIff(s);
      OctetIff(s, Value(s) as byte);
    }
  }

  lemma AllDigitsPrefix(s: string)
    requires AllDigits(s)
    ensures DigitPrefix(s) == |s|
  {
    assert forall k :: 0 <= k < |s| ==> s[k] in s;
  }

  /** For every port from 1 the two parsers agree byte for byte on every host the first one takes, and the
      second takes exactly those and the ones that differ from them by leading zeros. */
  lemma ParsersAgree(host: string, port: Port)
    requires port >= 1
    ensures ParseQuad(host).Some? ==> ParseHostPort(host, port) == Some(Pack(ParseQuad(host).value, port))
    ensures ParseQuad(host).Some? <==> ParseHostPort(host, port).Some? && forall i :: 0 <= i < |Split(host)| ==> !LeadingZero(Split(host)[i])
  {
    var p := Split(host);
    if |p| == 4 {
      forall i | 0 <= i < 4 ensures ParseOctet(p[i]).Some? <==> Numeral(p[i]) && !LeadingZero(p[i]) { NumeralOctet(p[i]); }
      if ParseQuad(host).Some? {
        forall i | 0 <= i < 4 ensures ParseOctet(p[i]).value == NumeralValue(p[i]) { NumeralOctet(p[i]); }
        assert ParseHost(host).value == ParseQuad(host).value;
      }
    }
  }

  /** The consensus builder refuses a port exactly if it is not one of 1 to 65535, whatever the host. */
  lemma PortIff(host: string, port: int)
    ensures ParseHostPort(host, port).Some? <==> ParseHost(host).Some? && 0 < port < 65536
  {
  }
}
