/** Percent-encoding of URI components over UTF-8, and its inverse with the failures it has. */
module Uri {
  import opened Bytes
  import opened Entities

  type Octet = n: nat | n < 256

  predicate IsUnreserved(c: char)
  {
    'A' <= c <= 'Z' || 'a' <= c <= 'z' || '0' <= c <= '9' || c in "-_.!~*'()"
  }

  function HexDigit(n: nat): (c: char)
    requires n < 16
    ensures '0' <= c <= '9' || 'A' <= c <= 'F'
  {
    if n < 10 then '0' + n as char else 'A' + (n - 10) as char
  }

  function HexValue(c: char): (v: Option<nat>)
    ensures v.Some? ==> v.value < 16
  {
    if '0' <= c <= '9' then Some((c - '0') as nat)
    else if 'A' <= c <= 'F' then Some((c - 'A') as nat + 10)
    else if 'a' <= c <= 'f' then Some((c - 'a') as nat + 10)
    else None
  }

  function Percent(b: Octet): (s: string)
    ensures |s| == 3
  {
    ['%', HexDigit(b / 16), HexDigit(b % 16)]
  }

  function Percents(bs: seq<Octet>): (s: string)
    ensures |s| == 3 * |bs|
  {
    if bs == [] then "" else Percent(bs[0]) + Percents(bs[1..])
  }

  function Utf8(c: char): (bs: seq<Octet>)
    ensures 1 <= |bs| <= 4
  {
    var v := c as int;
    var w := v / 0x40;
    var x := w / 0x40;
    if v < 0x80 then [v]
    else if v < 0x800 then [0xC0 + w, 0x80 + v % 0x40]
    else if v < 0x1_0000 then [0xE0 + x, 0x80 + w % 0x40, 0x80 + v % 0x40]
    else [0xF0 + x / 0x40, 0x80 + x % 0x40, 0x80 + w % 0x40, 0x80 + v % 0x40]
  }

  function EncodeChar(c: char): (s: string)
    ensures s != ""
  {
    if IsUnreserved(c) then [c] else Percents(Utf8(c))
  }

  /** encodeURIComponent. */
  function Encode(s: string): string
  {
    if s == "" then "" else EncodeChar(s[0]) + Encode(s[1..])
  }

  // ----- Decoding -----

  /** The octet written as `%XX` in front of `s`. */
  function FirstOctet(s: string): Option<Octet>
  {
    if |s| < 3 || s[0] != '%' then None else
    var hi, lo := HexValue(s[1]), HexValue(s[2]);
    if hi.None? || lo.None? then None else Some(16 * hi.value + lo.value)
  }

  function Octets(s: string, n: nat): (r: Option<seq<Octet>>)
    ensures r.Some? ==> |r.value| == n && 3 * n <= |s|
    ensures r.Some? && n > 0 ==> Some(r.value[0]) == FirstOctet(s)
  {
    if n == 0 then Some([]) else
    if FirstOctet(s).None? then None else
    match Octets(s[3..], n - 1)
    case None => None
    case Some(rest) => Some([FirstOctet(s).value] + rest)
  }

  /** How many octets a character has that starts with `b`; 0 if none starts so. */
  function LeadLength(b: Octet): (n: nat)
    ensures n <= 4
  {
    if b < 0x80 then 1 else if 0xC0 <= b < 0xE0 then 2 else if 0xE0 <= b < 0xF0 then 3 else if 0xF0 <= b < 0xF8 then 4 else 0
  }

  /** Six more bits from a continuation octet. */
  function Extend(v: Option<nat>, b: Octet): Option<nat>
  {
    if v.None? || b < 0x80 || b >= 0xC0 then None else Some(0x40 * v.value + (b - 0x80))
  }

  /** A code point if it is one and needs that many octets. */
  function CodePoint(v: Option<nat>, least: nat): Option<char>
  {
    if v.None? || v.value < least || 0xD800 <= v.value < 0xE000 || v.value >= 0x11_0000 then None else Some(v.value as char)
  }

  function FromUtf8(bs: seq<Octet>): Option<char>
    requires bs != [] && |bs| == LeadLength(bs[0])
  {
    if |bs| == 1 then CodePoint(Some(bs[0]), 0)
    else if |bs| == 2 then CodePoint(Extend(Some(bs[0] - 0xC0), bs[1]), 0x80)
    else if |bs| == 3 then CodePoint(Extend(Extend(Some(bs[0] - 0xE0), bs[1]), bs[2]), 0x800)
    else CodePoint(Extend(Extend(Extend(Some(bs[0] - 0xF0), bs[1]), bs[2]), bs[3]), 0x1_0000)
  }

  /** The first character that `s` decodes to and the length it takes up. */
  function DecodeFirst(s: string): (r: Option<(char, nat)>)
    requires s != ""
    ensures r.Some? ==> 0 < r.value.1 <= |s|
  {
    if s[0] != '%' then Some((s[0], 1)) else
    var lead := FirstOctet(s);
    if lead.None? || LeadLength(lead.value) == 0 then None else
    var n := LeadLength(lead.value);
    var bs := Octets(s, n);
    if bs.None? then None else
    var c := FromUtf8(bs.value);
    if c.None? then None else Some((c.value, 3 * n))
  }

  /** decodeURIComponent; None is its URIError. */
  function Decode(s: string): Option<string>
  {
    if s == "" then Some("") else
    match DecodeFirst(s)
    case None => None
    case Some((c, n)) => Prepend(c, Decode(s[n..]))
  }

  function Prepend(c: char, rest: Option<string>): Option<string>
  {
    match rest
    case None => None
    case Some(r) => Some([c] + r)
  }

  // ----- Round trip -----

  lemma PercentInFront(b: Octet, rest: string)
    ensures var s := Percent(b) + rest; s[0] == '%' && s[3..] == rest && FirstOctet(s) == Some(b)
  {
    var s := Percent(b) + rest;
    assert s[0] == Percent(b)[0] && s[1] == Percent(b)[1] && s[2] == Percent(b)[2];
  }

  lemma {:induction false} OctetsOfPercents(bs: seq<Octet>, tail: string)
    ensures Octets(Percents(bs) + tail, |bs|) == Some(bs)
    ensures bs != [] ==> FirstOctet(Percents(bs) + tail) == Some(bs[0]) && (Percents(bs) + tail)[0] == '%'
  {
    if bs != [] {
      PercentInFront(bs[0], Percents(bs[1..]) + tail);
      Associate(Percent(bs[0]), Percents(bs[1..]), tail);
      OctetsOfPercents(bs[1..], tail);
      assert [bs[0]] + bs[1..] == bs;
    }
  }

  /** Either case of a hexadecimal digit is read, nothing else. */
  lemma HexValueIff(c: char, n: nat)
    requires n < 16
    ensures HexValue(c) == Some(n) <==> c == "0123456789ABCDEF"[n] || c == "0123456789abcdef"[n]
  {
  }

  lemma Digits64(high: nat, low: nat)
    requires low < 0x40
    ensures (0x40 * high + low) / 0x40 == high && (0x40 * high + low) % 0x40 == low
  {
  }

  lemma TwoBack(a: Octet, b: Octet)
    requires 0xC0 <= a < 0xE0 && FromUtf8([a, b]).Some?
    ensures Utf8(FromUtf8([a, b]).value) == [a, b]
  {
    Digits64(a - 0xC0, b - 0x80);
  }

  lemma ThreeBack(a: Octet, b: Octet, c: Octet)
    requires 0xE0 <= a < 0xF0 && FromUtf8([a, b, c]).Some?
    ensures Utf8(FromUtf8([a, b, c]).value) == [a, b, c]
  {
    Digits64(a - 0xE0, b - 0x80);
    Digits64(0x40 * (a - 0xE0) + (b - 0x80), c - 0x80);
  }

  lemma FourBack(a: Octet, b: Octet, c: Octet, d: Octet)
    requires 0xF0 <= a < 0xF8 && FromUtf8([a, b, c, d]).Some?
    ensures Utf8(FromUtf8([a, b, c, d]).value) == [a, b, c, d]
  {
    Digits64(a - 0xF0, b - 0x80);
    Digits64(0x40 * (a - 0xF0) + (b - 0x80), c - 0x80);
    Digits64(0x40 * (0x40 * (a - 0xF0) + (b - 0x80)) + (c - 0x80), d - 0x80);
  }

  lemma Utf8Back(bs: seq<Octet>)
    requires bs != [] && |bs| == LeadLength(bs[0]) && FromUtf8(bs).Some?
    ensures Utf8(FromUtf8(bs).value) == bs
  {
    if |bs| == 2 {
      assert bs == [bs[0], bs[1]];
      TwoBack(bs[0], bs[1]);
    } else if |bs| == 3 {
      assert bs == [bs[0], bs[1], bs[2]];
      ThreeBack(bs[0], bs[1], bs[2]);
    } else if |bs| == 4 {
      assert bs == [bs[0], bs[1], bs[2], bs[3]];
      FourBack(bs[0], bs[1], bs[2], bs[3]);
    }
  }

  /** Octets are read as a character exactly if they are how it is written, in its shortest form. */
  lemma Utf8Iff(bs: seq<Octet>, c: char)
    requires bs != [] && |bs| == LeadLength(bs[0])
    ensures FromUtf8(bs) == Some(c) <==> bs == Utf8(c)
  {
    Utf8RoundTrip(c);
    if FromUtf8(bs).Some? { Utf8Back(bs); }
  }

  lemma Utf8RoundTrip(c: char)
    ensures var bs := Utf8(c); LeadLength(bs[0]) == |bs| && FromUtf8(bs) == Some(c)
  {
  }

  /** One encoded character in front is read back as that character, whatever follows. */
  lemma DecodeEncodedChar(c: char, tail: string)
    ensures DecodeFirst(EncodeChar(c) + tail) == Some((c, |EncodeChar(c)|))
  {
    if IsUnreserved(c) {
      assert (EncodeChar(c) + tail)[0] == c;
    } else {
      OctetsOfPercents(Utf8(c), tail);
      Utf8RoundTrip(c);
    }
  }

  lemma DecodePrepends(c: char, tail: string)
    ensures Decode(EncodeChar(c) + tail) == Prepend(c, Decode(tail))
  {
    DecodeEncodedChar(c, tail);
    assert (EncodeChar(c) + tail)[|EncodeChar(c)|..] == tail;
  }

  /** Decoding an encoded component gives the component back, for every string. */
  lemma {:induction false} DecodeEncoded(s: string)
    ensures Decode(Encode(s)) == Some(s)
  {
    if s != "" {
      DecodePrepends(s[0], Encode(s[1..]));
      DecodeEncoded(s[1..]);
      assert [s[0]] + s[1..] == s;
    }
  }

  lemma {:induction false} EncodeConcat(a: string, b: string)
    ensures Encode(a + b) == Encode(a) + Encode(b)
  {
    if a == "" {
      assert a + b == b;
    } else {
      assert (a + b)[1..] == a[1..] + b;
      EncodeConcat(a[1..], b);
      assert EncodeChar(a[0]) + (Encode(a[1..]) + Encode(b)) == (EncodeChar(a[0]) + Encode(a[1..])) + Encode(b);
    }
  }

  lemma EncodeOne(c: char)
    ensures Encode([c]) == EncodeChar(c)
    ensures c == ':' ==> EncodeChar(c) == "%3A"
    ensures c == '/' ==> EncodeChar(c) == "%2F"
  {
    assert Encode([c]) == EncodeChar(c) + Encode([c][1..]);
    if c == ':' || c == '/' {
      var bs := Utf8(c);
      assert bs[1..] == [];
      assert Percents(bs) == Percent(bs[0]) + Percents(bs[1..]);
    }
  }

  lemma {:induction false} EncodePlain(s: string)
    requires forall c :: c in s ==> IsUnreserved(c)
    ensures Encode(s) == s
  {
    if s != "" {
      assert s[0] in s;
      EncodePlain(s[1..]);
      assert s == [s[0]] + s[1..];
    }
  }

  /** Text is left as it is exactly if it has letters, digits and these marks only. */
  lemma EncodeFixesIff(s: string)
    ensures Encode(s) == s <==>
      forall c :: c in s ==> 'A' <= c <= 'Z' || 'a' <= c <= 'z' || '0' <= c <= '9' || c in ['-', '_', '.', '!', '~', '*', '\'', '(', ')']
  {
    if forall c :: c in s ==> IsUnreserved(c) { EncodePlain(s); } else { Longer(s); }
  }

  lemma {:induction false} Longer(s: string)
    ensures |Encode(s)| >= |s|
    ensures (exists c :: c in s && !IsUnreserved(c)) ==> |Encode(s)| > |s|
  {
    if s != "" { Longer(s[1..]); }
  }

  /** Anything else in the first 128 characters is written as a percent sign and two hexadecimal digits. */
  lemma EncodeAscii(c: char)
    requires c as int < 128 && !IsUnreserved(c)
    ensures var hex := "0123456789ABCDEF"; EncodeChar(c) == ['%', hex[c as int / 16], hex[c as int % 16]]
  {
    var bs := Utf8(c);
    assert bs[1..] == [];
    assert Percents(bs) == Percent(bs[0]) + Percents(bs[1..]);
    HexDigits(c as int / 16);
    HexDigits(c as int % 16);
  }

  lemma HexDigits(n: nat)
    requires n < 16
    ensures HexDigit(n) == "0123456789ABCDEF"[n]
  {
  }

  // ----- What encoded text is made of -----

  predicate IsEncodedChar(c: char) { IsUnreserved(c) || c == '%' }

  lemma {:induction false} PercentsAlphabet(bs: seq<Octet>)
    ensures forall c :: c in Percents(bs) ==> c == '%' || '0' <= c <= '9' || 'A' <= c <= 'F'
  {
    if bs != [] { PercentsAlphabet(bs[1..]); }
  }

  lemma {:induction false} EncodeAlphabet(s: string)
    ensures forall c :: c in Encode(s) ==> IsEncodedChar(c) && (c == '\'' ==> '\'' in s)
  {
    if s != "" {
      EncodeAlphabet(s[1..]);
      PercentsAlphabet(Utf8(s[0]));
    }
  }

  // ----- Encoded text that went through HTML escaping -----

  /** What an apostrophe becomes when the entity for it is taken for text. */
  function Quote(s: string): string { Replace(s, '\'', "&#39;") }

  lemma {:induction false} QuoteFixes(s: string)
    ensures Quote(s) == s <==> '\'' !in s
    ensures |Quote(s)| >= |s| && ('\'' in s ==> |Quote(s)| > |s|)
  {
    if s != "" {
      QuoteFixes(s[1..]);
      if '\'' !in s { ReplaceNone(s, '\'', "&#39;"); }
    }
  }

  lemma EscapeEncodedChar(c: char)
    ensures Escape(EncodeChar(c)) == if c == '\'' then "&#39;" else EncodeChar(c)
  {
    if c == '\'' {
      EscapeOne(c);
    } else {
      var e := EncodeChar(c);
      PercentsAlphabet(Utf8(c));
      EscapeFixes(e);
    }
  }

  /** Nothing to escape. */
  ghost predicate Inert(s: string) { forall c :: c in s ==> c !in "&<>\"'" }

  /** Nothing to encode and nothing to escape. */
  ghost predicate IsPlain(s: string) { forall c :: c in s ==> IsUnreserved(c) && c != '\'' }

  lemma PlainPassesBoth(s: string)
    requires IsPlain(s)
    ensures Inert(s) && Encode(s) == s
  {
    EncodePlain(s);
  }

  lemma EscapeFixes(s: string)
    requires Inert(s)
    ensures Escape(s) == s
  {
    ReplaceNone(s, '&', "&amp;"); ReplaceNone(s, '<', "&lt;"); ReplaceNone(s, '>', "&gt;");
    ReplaceNone(s, '"', "&quot;"); ReplaceNone(s, '\'', "&#39;");
  }

  lemma EscapeAfter(front: string, tail: string)
    requires Inert(front)
    ensures Escape(front + tail) == front + Escape(tail)
  {
    EscapeFixes(front);
    EscapeConcat(front, tail);
  }

  lemma DecodeOne(c: char, tail: string)
    requires c != '%'
    ensures Decode([c] + tail) == Prepend(c, Decode(tail))
  {
    assert ([c] + tail)[1..] == tail;
  }

  lemma {:induction false} DecodeLiteral(front: string, tail: string)
    requires '%' !in front && Decode(tail).Some?
    ensures Decode(front + tail) == Some(front + Decode(tail).value)
  {
    if front == "" {
      assert front + tail == tail && front + Decode(tail).value == Decode(tail).value;
    } else {
      var c, rest := front[0], front[1..];
      assert c in front && front == [c] + rest;
      DecodeLiteral(rest, tail);
      DecodeOne(c, rest + tail);
      Associate([c], rest, tail);
      Associate([c], rest, Decode(tail).value);
    }
  }

  /** Decoding an encoded component that was HTML-escaped in between turns each apostrophe into `&#39;` and
      leaves everything else as it was. */
  lemma {:induction false} DecodeEscapedEncoded(s: string)
    ensures Decode(Escape(Encode(s))) == Some(Quote(s))
  {
    if s == "" {
      EscapeFixes("");
    } else {
      EscapeConcat(EncodeChar(s[0]), Encode(s[1..]));
      EscapeEncodedChar(s[0]);
      DecodeEscapedEncoded(s[1..]);
      if s[0] == '\'' {
        DecodeLiteral("&#39;", Escape(Encode(s[1..])));
      } else {
        DecodePrepends(s[0], Escape(Encode(s[1..])));
      }
    }
  }
}
