/** Exit policies: the rule codec, first-match evaluation, and when a rule is redundant. */
module ExitPolicy {
  import opened Bytes

  datatype Action = Accept | Reject
  datatype Prefix = IPv4(net: seq<byte>, mask: nat) | IPv6(net: seq<byte>, mask: nat) | Any
  type Port = p: nat | p < 0x1_0000
  datatype RawRule = Rule(action: Action, prefix: Prefix, portMin: Port, portMax: Port)

  predicate ValidPrefix(p: Prefix)
  {
    match p
    case IPv4(net, mask) => |net| == 4 && mask <= 32
    case IPv6(net, mask) => |net| == 16 && mask <= 128
    case Any => true
  }

  type Rule = r: RawRule | ValidPrefix(r.prefix) && r.portMin <= r.portMax witness Rule(Reject, Any, 0, 0)

  // ----- Codec -----

  function EncodePrefix(p: Prefix): (bs: seq<byte>)
    requires ValidPrefix(p)
    ensures |bs| == if p.Any? then 1 else if p.IPv4? then 6 else 18
  {
    match p
    case IPv4(net, mask) => [1] + net + [mask as byte]
    case IPv6(net, mask) => [2] + net + [mask as byte]
    case Any => [0xFF]
  }

  function EncodeRule(r: Rule): (bs: seq<byte>)
    ensures |bs| == if r.prefix.Any? then 6 else if r.prefix.IPv4? then 11 else 23
  {
    [if r.action.Accept? then 1 else 2] + EncodePrefix(r.prefix) + BigEndian(r.portMin, 2) + BigEndian(r.portMax, 2)
  }

  function EncodeRules(rules: seq<Rule>): seq<byte>
  {
    if rules == [] then [] else EncodeRule(rules[0]) + EncodeRules(rules[1..])
  }

  function BuildPolicy(rules: seq<Rule>): Option<seq<byte>>
  {
    if |rules| >= 0x1_0000 then None else Some(BigEndian(|rules|, 2) + EncodeRules(rules))
  }

  /** The address prefix at the start of `bs`, and what follows it. */
  function ParsePrefix(bs: seq<byte>): (r: Option<(Prefix, seq<byte>)>)
    ensures r.Some? ==> ValidPrefix(r.value.0) && |r.value.1| < |bs|
  {
    if |bs| >= 6 && bs[0] == 1 && bs[5] <= 32 then Some((IPv4(bs[1..5], bs[5] as nat), bs[6..]))
    else if |bs| >= 18 && bs[0] == 2 && bs[17] <= 128 then Some((IPv6(bs[1..17], bs[17] as nat), bs[18..]))
    else if |bs| >= 1 && bs[0] == 0xFF then Some((Any, bs[1..]))
    else None
  }

  function ParseRule(bs: seq<byte>): (r: Option<(Rule, seq<byte>)>)
    ensures r.Some? ==> |r.value.1| < |bs|
  {
    if |bs| == 0 || bs[0] !in {1, 2} then None else
    match ParsePrefix(bs[1..])
    case None => None
    case Some((prefix, rest)) =>
      if |rest| < 4 then None else
      FieldSizes();
      var lo, hi := FromBigEndian(rest[..2]), FromBigEndian(rest[2..4]);
      if hi < lo then None else Some((Rule(if bs[0] == 1 then Accept else Reject, prefix, lo, hi), rest[4..]))
  }

  function ParseRules(bs: seq<byte>, n: nat): Option<seq<Rule>>
  {
    if n == 0 then if bs == [] then Some([]) else None else
    match ParseRule(bs)
    case None => None
    case Some((rule, rest)) =>
      match ParseRules(rest, n - 1)
      case None => None
      case Some(rules) => Some([rule] + rules)
  }

  function ParsePolicy(bs: seq<byte>): Option<seq<Rule>>
  {
    if |bs| < 2 then None else ParseRules(bs[2..], FromBigEndian(bs[..2]))
  }

  lemma ParseEncodedPrefix(p: Prefix, tail: seq<byte>)
    requires ValidPrefix(p)
    ensures ParsePrefix(EncodePrefix(p) + tail) == Some((p, tail))
  {
    match p
    case IPv4(net, mask) =>
      var bs: seq<byte> := [1] + net + [mask as byte] + tail;
      assert bs[1..5] == net && bs[6..] == tail;
    case IPv6(net, mask) =>
      var bs: seq<byte> := [2] + net + [mask as byte] + tail;
      assert bs[1..17] == net && bs[18..] == tail;
    case Any =>
      var bs: seq<byte> := [0xFF] + tail;
      assert bs[1..] == tail;
  }

  lemma ParseEncodedRule(r: Rule, tail: seq<byte>)
    ensures ParseRule(EncodeRule(r) + tail) == Some((r, tail))
  {
    var rest := BigEndian(r.portMin, 2) + BigEndian(r.portMax, 2) + tail;
    var bs := EncodeRule(r) + tail;
    assert bs[1..] == EncodePrefix(r.prefix) + rest;
    ParseEncodedPrefix(r.prefix, rest);
    assert ParsePrefix(bs[1..]) == Some((r.prefix, rest));
    ParsePorts(r.portMin, r.portMax, tail);
    ParseHead(r.action, bs, r.prefix, rest);
  }

  /** What the rule parser makes of a known prefix and its rest. */
  lemma ParseHead(action: Action, bs: seq<byte>, prefix: Prefix, rest: seq<byte>)
    requires bs != [] && bs[0] == (if action.Accept? then 1 else 2) && |rest| >= 4
    requires ParsePrefix(bs[1..]) == Some((prefix, rest)) && FromBigEndian(rest[..2]) <= FromBigEndian(rest[2..4])
    ensures ParseRule(bs) == (FieldSizes();
      Some((Rule(action, prefix, FromBigEndian(rest[..2]), FromBigEndian(rest[2..4])), rest[4..])))
  {
    FieldSizes();
  }

  lemma ParsePorts(lo: Port, hi: Port, tail: seq<byte>)
    ensures var rest := BigEndian(lo, 2) + BigEndian(hi, 2) + tail;
      FromBigEndian(rest[..2]) == lo && FromBigEndian(rest[2..4]) == hi && rest[4..] == tail
  {
    var rest := BigEndian(lo, 2) + BigEndian(hi, 2) + tail;
    ThreeParts(BigEndian(lo, 2), BigEndian(hi, 2), tail);
    FieldSizes();
    BigEndianRoundTrip(lo, 2);
    BigEndianRoundTrip(hi, 2);
  }

  lemma ThreeParts(a: seq<byte>, b: seq<byte>, c: seq<byte>)
    requires |a| == 2 && |b| == 2
    ensures (a + b + c)[..2] == a && (a + b + c)[2..4] == b && (a + b + c)[4..] == c
  {
  }

  lemma ParseOneMore(bs: seq<byte>, r: Rule, rest: seq<byte>, rules: seq<Rule>)
    requires ParseRule(bs) == Some((r, rest)) && ParseRules(rest, |rules|) == Some(rules)
    ensures ParseRules(bs, |rules| + 1) == Some([r] + rules)
  {
  }

  lemma {:induction false} ParseEncodedRules(rules: seq<Rule>)
    ensures ParseRules(EncodeRules(rules), |rules|) == Some(rules)
  {
    if rules != [] {
      ParseEncodedRule(rules[0], EncodeRules(rules[1..]));
      ParseEncodedRules(rules[1..]);
      ParseOneMore(EncodeRules(rules), rules[0], EncodeRules(rules[1..]), rules[1..]);
      assert [rules[0]] + rules[1..] == rules;
    }
  }

  /** Parsing a built policy gives the rule list back. */
  lemma ParseBuiltPolicy(rules: seq<Rule>)
    requires BuildPolicy(rules).Some?
    ensures ParsePolicy(BuildPolicy(rules).value) == Some(rules)
  {
    var bs := BuildPolicy(rules).value;
    FieldSizes();
    BigEndianRoundTrip(|rules|, 2);
    assert bs[..2] == BigEndian(|rules|, 2) && bs[2..] == EncodeRules(rules);
    ParseEncodedRules(rules);
  }

  lemma ParsedPrefixEncodes(bs: seq<byte>)
    requires ParsePrefix(bs).Some?
    ensures bs == EncodePrefix(ParsePrefix(bs).value.0) + ParsePrefix(bs).value.1
  {
  }

  lemma PortsBack(rest: seq<byte>)
    requires |rest| >= 4
    ensures BigEndian(FromBigEndian(rest[..2]), 2) + BigEndian(FromBigEndian(rest[2..4]), 2) + rest[4..] == rest
  {
    FromBigEndianRoundTrip(rest[..2]);
    FromBigEndianRoundTrip(rest[2..4]);
    assert rest == rest[..2] + rest[2..4] + rest[4..];
  }

  lemma RuleAppend(head: seq<byte>, prefix: seq<byte>, lo: seq<byte>, hi: seq<byte>, tail: seq<byte>)
    ensures head + (prefix + (lo + hi + tail)) == (head + prefix + lo + hi) + tail
  {
  }

  lemma ParsedRuleEncodes(bs: seq<byte>)
    requires ParseRule(bs).Some?
    ensures bs == EncodeRule(ParseRule(bs).value.0) + ParseRule(bs).value.1
  {
    var (r, tail) := ParseRule(bs).value;
    var rest := ParsePrefix(bs[1..]).value.1;
    ParsedPrefixEncodes(bs[1..]);
    PortsBack(rest);
    TakeDrop(bs, 1);
    assert bs[..1] == [if r.action.Accept? then 1 else 2];
    RuleAppend(bs[..1], EncodePrefix(r.prefix), BigEndian(r.portMin, 2), BigEndian(r.portMax, 2), tail);
  }

  lemma EncodeOneMore(r: Rule, rules: seq<Rule>)
    ensures EncodeRules([r] + rules) == EncodeRule(r) + EncodeRules(rules)
  {
    assert ([r] + rules)[1..] == rules;
  }

  lemma {:induction false} ParsedRulesEncode(bs: seq<byte>, n: nat)
    requires ParseRules(bs, n).Some?
    ensures |ParseRules(bs, n).value| == n && bs == EncodeRules(ParseRules(bs, n).value)
  {
    if n > 0 {
      var (r, rest) := ParseRule(bs).value;
      ParsedRuleEncodes(bs);
      ParsedRulesEncode(rest, n - 1);
      EncodeOneMore(r, ParseRules(rest, n - 1).value);
    }
  }

  /** The codec is a bijection: whatever parses is exactly the encoding of what it parses to. So no two rule
      lists share an encoding and no rule list has two. */
  lemma BuildParsedPolicy(bs: seq<byte>)
    requires ParsePolicy(bs).Some?
    ensures BuildPolicy(ParsePolicy(bs).value) == Some(bs)
  {
    ParsedRulesEncode(bs[2..], FromBigEndian(bs[..2]));
    FieldSizes();
    FromBigEndianRoundTrip(bs[..2]);
    assert bs == bs[..2] + bs[2..];
  }

  /** A rule's bytes: action, kind of address, the address and its mask unless it is any, and two ports. */
  lemma RuleLayout(r: Rule)
    ensures var bs, at := EncodeRule(r), (if r.prefix.Any? then 2 else if r.prefix.IPv4? then 7 else 19);
      && |bs| == at + 4 && bs[0] == (match r.action case Accept => 1 case Reject => 2)
      && (match r.prefix
          case Any => bs[1] == 255
          case IPv4(net, mask) => bs[1] == 1 && bs[2..6] == net && bs[6] as nat == mask
          case IPv6(net, mask) => bs[1] == 2 && bs[2..18] == net && bs[18] as nat == mask)
      && FromBigEndian(bs[at..at + 2]) == r.portMin && FromBigEndian(bs[at + 2..]) == r.portMax
  {
    var bs, at := EncodeRule(r), (if r.prefix.Any? then 2 else if r.prefix.IPv4? then 7 else 19);
    FieldSizes();
    BigEndianRoundTrip(r.portMin, 2);
    BigEndianRoundTrip(r.portMax, 2);
    RuleSlices(bs[0], EncodePrefix(r.prefix), BigEndian(r.portMin, 2), BigEndian(r.portMax, 2));
    assert bs[1..at] == EncodePrefix(r.prefix);
    match r.prefix
    case Any => assert bs[1] == bs[1..at][0];
    case IPv4(net, mask) => assert bs[1] == bs[1..at][0] && bs[2..6] == bs[1..at][1..5] && bs[6] == bs[1..at][5];
    case IPv6(net, mask) => assert bs[1] == bs[1..at][0] && bs[2..18] == bs[1..at][1..17] && bs[18] == bs[1..at][17];
  }

  lemma RuleSlices(action: byte, prefix: seq<byte>, lo: seq<byte>, hi: seq<byte>)
    requires |lo| == |hi| == 2
    ensures var bs, at := [action] + prefix + lo + hi, 1 + |prefix|; bs[1..at] == prefix && bs[at..at + 2] == lo && bs[at + 2..] == hi
  {
  }

  // ----- Evaluation -----

  datatype Dest = V4(addr: seq<byte>, port: Port) | V6(addr: seq<byte>, port: Port)

  ghost predicate ValidDest(d: Dest) { |d.addr| == if d.V4? then 4 else 16 }

  /** The low `n` bits of `v`, most significant first. */
  function LowBits(v: nat, n: nat): (r: seq<bool>)
    ensures |r| == n
  {
    if n == 0 then [] else LowBits(v / 2, n - 1) + [v % 2 == 1]
  }

  /** Most significant bit of the first byte first. */
  function Bits(bs: seq<byte>): (r: seq<bool>)
    ensures |r| == 8 * |bs|
  {
    if bs == [] then [] else LowBits(bs[0] as nat, 8) + Bits(bs[1..])
  }

  predicate InPrefix(p: Prefix, d: Dest)
    requires ValidPrefix(p)
  {
    match p
    case Any => true
    case IPv4(net, mask) => d.V4? && |d.addr| == 4 && Bits(d.addr)[..mask] == Bits(net)[..mask]
    case IPv6(net, mask) => d.V6? && |d.addr| == 16 && Bits(d.addr)[..mask] == Bits(net)[..mask]
  }

  predicate Matches(r: Rule, d: Dest) { r.portMin <= d.port <= r.portMax && InPrefix(r.prefix, d) }

  /** The high `n` bits of a byte. */
  function High(b: byte, n: nat): nat
    requires 0 < n <= 8
  {
    var v := b as nat;
    match n
    case 1 => v / 128
    case 2 => v / 64
    case 3 => v / 32
    case 4 => v / 16
    case 5 => v / 8
    case 6 => v / 4
    case 7 => v / 2
    case _ => v
  }

  /** The addresses agree in the whole bytes of the mask and in the high bits of the next byte that it reaches into. */
  ghost predicate SameStart(a: seq<byte>, b: seq<byte>, mask: nat)
    requires |a| == |b| && mask <= 8 * |a|
  {
    && (forall k :: 0 <= k < mask / 8 ==> a[k] == b[k])
    && (mask % 8 > 0 ==> High(a[mask / 8], mask % 8) == High(b[mask / 8], mask % 8))
  }

  lemma {:induction false} LowBitsFront(v: nat, n: nat, m: nat)
    requires m <= n
    ensures LowBits(v, n)[..m] == LowBits(Halve(v, n - m), m)
    decreases n
  {
    if m < n {
      LowBitsFront(v / 2, n - 1, m);
      assert LowBits(v, n)[..m] == LowBits(v / 2, n - 1)[..m];
    }
  }

  lemma HighIsHalved(b: byte, n: nat)
    requires 0 < n <= 8
    ensures High(b, n) == Halve(b as nat, 8 - n) < Pow2(n)
  {
    if n < 8 { HalveIs(b as nat, 8 - n); }
    assert Pow2(1) == 2 && Pow2(2) == 4 && Pow2(3) == 8 && Pow2(4) == 16;
    assert Pow2(5) == 32 && Pow2(6) == 64 && Pow2(7) == 128 && Pow2(8) == 256;
  }

  lemma {:induction false} LowBitsDetermine(a: nat, b: nat, n: nat)
    requires a < Pow2(n) && b < Pow2(n) && LowBits(a, n) == LowBits(b, n)
    ensures a == b
  {
    if n > 0 {
      var x, y := LowBits(a, n), LowBits(b, n);
      assert x[..n - 1] == LowBits(a / 2, n - 1) && y[..n - 1] == LowBits(b / 2, n - 1);
      assert x[n - 1] == (a % 2 == 1) && y[n - 1] == (b % 2 == 1);
      LowBitsDetermine(a / 2, b / 2, n - 1);
    }
  }

  lemma FirstByteBits(a: byte, b: byte, m: nat)
    requires 0 < m <= 8
    ensures LowBits(a as nat, 8)[..m] == LowBits(b as nat, 8)[..m] <==> High(a, m) == High(b, m)
  {
    LowBitsFront(a as nat, 8, m);
    LowBitsFront(b as nat, 8, m);
    HighIsHalved(a, m);
    HighIsHalved(b, m);
    if LowBits(High(a, m), m) == LowBits(High(b, m), m) { LowBitsDetermine(High(a, m), High(b, m), m); }
  }

  lemma BitsCut(a: seq<byte>, m: nat)
    requires a != [] && m <= 8 * |a|
    ensures m <= 8 ==> Bits(a)[..m] == LowBits(a[0] as nat, 8)[..m]
    ensures m >= 8 ==> Bits(a)[..m] == LowBits(a[0] as nat, 8) + Bits(a[1..])[..m - 8]
  {
  }

  lemma FullBits(b: byte)
    ensures LowBits(b as nat, 8)[..8] == LowBits(b as nat, 8) && High(b, 8) == b as nat
  {
  }

  lemma Joined(a: seq<bool>, b: seq<bool>, x: seq<bool>, y: seq<bool>)
    requires |a| == |x|
    ensures a + b == x + y <==> a == x && b == y
  {
    assert (a + b)[..|a|] == a && (x + y)[..|x|] == x && (a + b)[|a|..] == b && (x + y)[|x|..] == y;
  }

  /** The leading bits agree exactly if the bytes do, byte by byte. */
  lemma {:induction false} BitsAreBytes(a: seq<byte>, b: seq<byte>, mask: nat)
    requires |a| == |b| && mask <= 8 * |a|
    ensures Bits(a)[..mask] == Bits(b)[..mask] <==> SameStart(a, b, mask)
  {
    if mask == 0 {
    } else if mask < 8 {
      BitsCut(a, mask);
      BitsCut(b, mask);
      FirstByteBits(a[0], b[0], mask);
    } else {
      BitsCut(a, mask);
      BitsCut(b, mask);
      FirstByteBits(a[0], b[0], 8);
      FullBits(a[0]);
      FullBits(b[0]);
      Joined(LowBits(a[0] as nat, 8), Bits(a[1..])[..mask - 8], LowBits(b[0] as nat, 8), Bits(b[1..])[..mask - 8]);
      BitsAreBytes(a[1..], b[1..], mask - 8);
      SameStartRest(a, b, mask);
    }
  }

  lemma SameStartRest(a: seq<byte>, b: seq<byte>, mask: nat)
    requires |a| == |b| && 8 <= mask <= 8 * |a|
    ensures SameStart(a, b, mask) <==> a[0] == b[0] && SameStart(a[1..], b[1..], mask - 8)
  {
    assert mask / 8 == (mask - 8) / 8 + 1 && mask % 8 == (mask - 8) % 8;
    if a[0] == b[0] && SameStart(a[1..], b[1..], mask - 8) {
      forall k | 0 <= k < mask / 8 ensures a[k] == b[k] {
        if k > 0 { assert a[1..][k - 1] == b[1..][k - 1]; }
      }
    }
    if SameStart(a, b, mask) {
      forall k | 0 <= k < (mask - 8) / 8 ensures a[1..][k] == b[1..][k] { assert a[k + 1] == b[k + 1]; }
    }
  }

  /** Which destinations a rule matches, over their bytes and ports. */
  lemma MatchesIff(r: Rule, d: Dest)
    requires ValidDest(d)
    ensures Matches(r, d) <==> r.portMin <= d.port <= r.portMax && match r.prefix
      case Any => true
      case IPv4(net, mask) => d.V4? && SameStart(d.addr, net, mask)
      case IPv6(net, mask) => d.V6? && SameStart(d.addr, net, mask)
  {
    match r.prefix
    case Any =>
    case IPv4(net, mask) => if d.V4? { BitsAreBytes(d.addr, net, mask); }
    case IPv6(net, mask) => if d.V6? { BitsAreBytes(d.addr, net, mask); }
  }

  /** Rules are tried in order, the first match decides, and REJECT is the implicit last rule. */
  function Evaluate(rules: seq<Rule>, d: Dest): Action
  {
    if rules == [] then Reject
    else if Matches(rules[0], d) then rules[0].action
    else Evaluate(rules[1..], d)
  }

  /** A destination is accepted exactly if some accepting rule matches it and none before that one does. */
  lemma {:induction false} AcceptedIffFirstMatchAccepts(rules: seq<Rule>, d: Dest)
    ensures Evaluate(rules, d) == Accept <==>
      exists i :: 0 <= i < |rules| && Matches(rules[i], d) && rules[i].action == Accept
               && forall j :: 0 <= j < i ==> !Matches(rules[j], d)
  {
    if rules != [] && !Matches(rules[0], d) {
      var rest := rules[1..];
      AcceptedIffFirstMatchAccepts(rest, d);
      if Evaluate(rules, d) == Accept {
        var i :| 0 <= i < |rest| && Matches(rest[i], d) && rest[i].action == Accept && forall j :: 0 <= j < i ==> !Matches(rest[j], d);
        forall j | 0 <= j < i + 1 ensures !Matches(rules[j], d) {
          if j > 0 { assert rules[j] == rest[j - 1]; }
        }
        assert rules[i + 1] == rest[i];
      }
      if i :| 0 <= i < |rules| && Matches(rules[i], d) && rules[i].action == Accept && forall j :: 0 <= j < i ==> !Matches(rules[j], d) {
        assert rest[i - 1] == rules[i];
        forall j | 0 <= j < i - 1 ensures !Matches(rest[j], d) { assert rest[j] == rules[j + 1]; }
      }
    }
  }

  /** Client and exit agree: the advertised bytes decide like the operator's rule list. */
  lemma SameVerdictBothSides(rules: seq<Rule>, d: Dest)
    requires BuildPolicy(rules).Some?
    ensures ParsePolicy(BuildPolicy(rules).value).Some?
    ensures Evaluate(ParsePolicy(BuildPolicy(rules).value).value, d) == Evaluate(rules, d)
  {
    ParseBuiltPolicy(rules);
  }

  // ----- Redundant rules -----

  predicate PrefixCovers(a: Prefix, b: Prefix)
    requires ValidPrefix(a) && ValidPrefix(b)
  {
    match a
    case Any => true
    case IPv4(net, mask) => b.IPv4? && mask <= b.mask && Bits(net)[..mask] == Bits(b.net)[..mask]
    case IPv6(net, mask) => b.IPv6? && mask <= b.mask && Bits(net)[..mask] == Bits(b.net)[..mask]
  }

  /** Decided from the two rules alone. */
  predicate Covers(a: Rule, b: Rule)
  {
    a.portMin <= b.portMin && b.portMax <= a.portMax && PrefixCovers(a.prefix, b.prefix)
  }

  lemma CoveredMatches(a: Rule, b: Rule, d: Dest)
    requires Covers(a, b) && Matches(b, d)
    ensures Matches(a, d)
  {
    if !a.prefix.Any? {
      var m, n := a.prefix.mask, b.prefix.mask;
      assert Bits(d.addr)[..m] == Bits(d.addr)[..n][..m];
      assert Bits(b.prefix.net)[..m] == Bits(b.prefix.net)[..n][..m];
    }
  }

  function Value(bits: seq<bool>): (v: nat)
    ensures v < Pow2(|bits|)
  {
    if bits == [] then 0 else 2 * Value(bits[..|bits| - 1]) + if bits[|bits| - 1] then 1 else 0
  }

  function ByteOf(bits: seq<bool>): byte
    requires |bits| == 8
  {
    assert Pow2(8) == 256;
    Value(bits) as byte
  }

  lemma {:induction false} LowBitsOfValue(bits: seq<bool>)
    ensures LowBits(Value(bits), |bits|) == bits
  {
    if bits != [] {
      LowBitsOfValue(bits[..|bits| - 1]);
      assert bits == bits[..|bits| - 1] + [bits[|bits| - 1]];
    }
  }

  function BytesOf(bits: seq<bool>, n: nat): (bs: seq<byte>)
    requires |bits| == 8 * n
    ensures |bs| == n
  {
    if n == 0 then [] else [ByteOf(bits[..8])] + BytesOf(bits[8..], n - 1)
  }

  lemma {:induction false} BitsOfBytes(bits: seq<bool>, n: nat)
    requires |bits| == 8 * n
    ensures Bits(BytesOf(bits, n)) == bits
  {
    if n > 0 {
      LowBitsOfValue(bits[..8]);
      BitsOfBytes(bits[8..], n - 1);
      var bs := BytesOf(bits, n);
      assert bs[1..] == BytesOf(bits[8..], n - 1);
      assert bits[..8] + bits[8..] == bits;
    }
  }

  /** An address in the prefix of `n` bits of `net` that leaves the longer or different prefix `other`. */
  lemma Escapes(net: seq<byte>, n: nat, other: seq<byte>, m: nat) returns (addr: seq<byte>)
    requires |net| == |other| && n <= 8 * |net| && m <= 8 * |net|
    requires m > n || Bits(other)[..m] != Bits(net)[..m]
    ensures |addr| == |net| && Bits(addr)[..n] == Bits(net)[..n] && Bits(addr)[..m] != Bits(other)[..m]
  {
    if Bits(net)[..m] != Bits(other)[..m] {
      addr := net;
    } else {
      var bits := Bits(net)[n := !Bits(net)[n]];
      addr := BytesOf(bits, |net|);
      BitsOfBytes(bits, |net|);
      assert Bits(addr)[..m][n] != Bits(net)[..m][n];
    }
  }

  /** `Covers` is exact: it holds exactly if every destination the second rule matches, the first matches. */
  lemma CoversIsExact(a: Rule, b: Rule)
    ensures Covers(a, b) <==> forall d :: ValidDest(d) && Matches(b, d) ==> Matches(a, d)
  {
    if Covers(a, b) {
      forall d | Matches(b, d) ensures Matches(a, d) { CoveredMatches(a, b, d); }
    } else {
      var d := Uncovered(a, b);
    }
  }

  lemma Uncovered(a: Rule, b: Rule) returns (d: Dest)
    requires !Covers(a, b)
    ensures ValidDest(d) && Matches(b, d) && !Matches(a, d)
  {
    var port := if b.portMin < a.portMin then b.portMin else b.portMax;
    match b.prefix
    case IPv4(net, n) =>
      d := V4(net, port);
      if a.prefix.IPv4? && !PrefixCovers(a.prefix, b.prefix) {
        var addr := Escapes(net, n, a.prefix.net, a.prefix.mask);
        d := V4(addr, port);
      }
    case IPv6(net, n) =>
      d := V6(net, port);
      if a.prefix.IPv6? && !PrefixCovers(a.prefix, b.prefix) {
        var addr := Escapes(net, n, a.prefix.net, a.prefix.mask);
        d := V6(addr, port);
      }
    case Any =>
      d := if a.prefix.IPv4? then V6(Zeros(16), port) else V4(Zeros(4), port);
  }

  /** Deleting a rule that an earlier rule covers never changes a verdict. */
  lemma {:induction false} CoveredRuleIsRedundant(rules: seq<Rule>, i: nat, j: nat, d: Dest)
    requires i < j < |rules| && Covers(rules[i], rules[j])
    ensures Evaluate(rules[..j] + rules[j + 1..], d) == Evaluate(rules, d)
  {
    var cut, rest := rules[..j] + rules[j + 1..], rules[1..];
    assert cut[0] == rules[0];
    if !Matches(rules[0], d) {
      assert cut[1..] == rest[..j - 1] + rest[j..];
      if i == 0 {
        if Matches(rules[j], d) {
          CoveredMatches(rules[0], rules[j], d);
        }
        UnmatchedRuleIsRedundant(rest, j - 1, d);
      } else {
        CoveredRuleIsRedundant(rest, i - 1, j - 1, d);
      }
    }
  }

  lemma {:induction false} UnmatchedRuleIsRedundant(rules: seq<Rule>, j: nat, d: Dest)
    requires j < |rules| && !Matches(rules[j], d)
    ensures Evaluate(rules[..j] + rules[j + 1..], d) == Evaluate(rules, d)
  {
    var cut := rules[..j] + rules[j + 1..];
    if j == 0 {
      assert cut == rules[1..];
    } else if !Matches(rules[0], d) {
      assert cut[0] == rules[0] && cut[1..] == rules[1..][..j - 1] + rules[1..][j..];
      UnmatchedRuleIsRedundant(rules[1..], j - 1, d);
    }
  }

  // ----- Published vectors -----

  /** Accept port 443, reject everything else: the last vector of the exit-policy file. */
  lemma MixedVector()
    ensures BuildPolicy([Rule(Accept, Any, 443, 443), Rule(Reject, Any, 0, 65535)])
         == Some([0, 2, 1, 0xFF, 1, 0xBB, 1, 0xBB, 2, 0xFF, 0, 0, 0xFF, 0xFF])
  {
    var a, b := Rule(Accept, Any, 443, 443), Rule(Reject, Any, 0, 65535);
    TwoBytes(2); TwoBytes(443); TwoBytes(0); TwoBytes(65535);
    assert EncodeRule(a) == [1, 0xFF] + [1, 0xBB] + [1, 0xBB];
    assert EncodeRule(b) == [2, 0xFF] + [0, 0] + [0xFF, 0xFF];
    assert [a, b][1..] == [b] && [b][1..] == [];
    assert EncodeRules([b]) == EncodeRule(b) + [];
    assert EncodeRules([a, b]) == EncodeRule(a) + EncodeRules([b]);
    var bytes: seq<byte> := [0, 2, 1, 0xFF, 1, 0xBB, 1, 0xBB, 2, 0xFF, 0, 0, 0xFF, 0xFF];
    assert bytes == [0, 2] + ([1, 0xFF, 1, 0xBB, 1, 0xBB] + [2, 0xFF, 0, 0, 0xFF, 0xFF]);
    assert BuildPolicy([a, b]).value == BigEndian(2, 2) + EncodeRules([a, b]) == bytes;
  }
}
