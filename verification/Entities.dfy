/** HTML escaping by five replacements in a row, and the five entities read back. */
module Entities {
  /** Every `c` of `s` replaced by `with`. */
  function Replace(s: string, c: char, with: string): string
  {
    if s == "" then "" else (if s[0] == c then with else [s[0]]) + Replace(s[1..], c, with)
  }

  function Escape(s: string): string
  {
    Replace(Replace(Replace(Replace(Replace(s, '&', "&amp;"), '<', "&lt;"), '>', "&gt;"), '"', "&quot;"), '\'', "&#39;")
  }

  function Entity(c: char): string
  {
    match c
    case '&' => "&amp;"
    case '<' => "&lt;"
    case '>' => "&gt;"
    case '"' => "&quot;"
    case '\'' => "&#39;"
    case _ => [c]
  }

  /** One pass, character by character. */
  function EscapeEach(s: string): string
  {
    if s == "" then "" else Entity(s[0]) + EscapeEach(s[1..])
  }

  /** Reads the five entities; everything else stands for itself. */
  function Unescape(s: string): string
  {
    if s == "" then ""
    else if "&amp;" <= s then "&" + Unescape(s[5..])
    else if "&lt;" <= s then "<" + Unescape(s[4..])
    else if "&gt;" <= s then ">" + Unescape(s[4..])
    else if "&quot;" <= s then "\"" + Unescape(s[6..])
    else if "&#39;" <= s then "'" + Unescape(s[5..])
    else [s[0]] + Unescape(s[1..])
  }

  // ----- Replacements -----

  lemma {:induction false} ReplaceConcat(a: string, b: string, c: char, with: string)
    ensures Replace(a + b, c, with) == Replace(a, c, with) + Replace(b, c, with)
  {
    if a == "" {
      assert a + b == b;
    } else {
      assert (a + b)[1..] == a[1..] + b;
      ReplaceConcat(a[1..], b, c, with);
      var first := if a[0] == c then with else [a[0]];
      assert first + (Replace(a[1..], c, with) + Replace(b, c, with)) == (first + Replace(a[1..], c, with)) + Replace(b, c, with);
    }
  }

  lemma {:induction false} ReplaceNone(s: string, c: char, with: string)
    requires c !in s
    ensures Replace(s, c, with) == s
  {
    if s != "" {
      ReplaceNone(s[1..], c, with);
      assert s == [s[0]] + s[1..];
    }
  }

  lemma EscapeConcat(a: string, b: string)
    ensures Escape(a + b) == Escape(a) + Escape(b)
  {
    var a1, b1 := Replace(a, '&', "&amp;"), Replace(b, '&', "&amp;");
    var a2, b2 := Replace(a1, '<', "&lt;"), Replace(b1, '<', "&lt;");
    var a3, b3 := Replace(a2, '>', "&gt;"), Replace(b2, '>', "&gt;");
    var a4, b4 := Replace(a3, '"', "&quot;"), Replace(b3, '"', "&quot;");
    ReplaceConcat(a, b, '&', "&amp;");
    ReplaceConcat(a1, b1, '<', "&lt;");
    ReplaceConcat(a2, b2, '>', "&gt;");
    ReplaceConcat(a3, b3, '"', "&quot;");
    ReplaceConcat(a4, b4, '\'', "&#39;");
  }

  lemma ReplaceOne(c: char, d: char, with: string)
    ensures Replace([c], d, with) == if c == d then with else [c]
  {
    assert [c][1..] == "" && with + "" == with && [c] + "" == [c];
    assert Replace([c], d, with) == (if c == d then with else [c]) + Replace("", d, with);
  }

  lemma EscapeOne(c: char)
    ensures Escape([c]) == Entity(c)
  {
    var e := Entity(c);
    var s1 := if c == '&' then e else [c];
    var s2 := if c == '<' then e else s1;
    var s3 := if c == '>' then e else s2;
    var s4 := if c == '"' then e else s3;
    ReplaceOne(c, '&', "&amp;");
    ReplaceStage(c, s1, '<', "&lt;");
    ReplaceStage(c, s2, '>', "&gt;");
    ReplaceStage(c, s3, '"', "&quot;");
    ReplaceStage(c, s4, '\'', "&#39;");
    Stages([c], s1, s2, s3, s4, e);
  }

  /** One stage either replaces the character or passes over an entity made before. */
  lemma ReplaceStage(c: char, s: string, d: char, with: string)
    requires d in "<>\"'" && with == Entity(d)
    requires s == [c] || (c != d && s == Entity(c))
    ensures Replace(s, d, with) == if c == d then with else s
  {
    if s == [c] { ReplaceOne(c, d, with); } else { ReplaceNone(s, d, with); }
  }

  lemma Stages(s0: string, s1: string, s2: string, s3: string, s4: string, s5: string)
    requires Replace(s0, '&', "&amp;") == s1 && Replace(s1, '<', "&lt;") == s2 && Replace(s2, '>', "&gt;") == s3
    requires Replace(s3, '"', "&quot;") == s4 && Replace(s4, '\'', "&#39;") == s5
    ensures Escape(s0) == s5
  {
  }

  /** The five replacements in that order amount to one map: no later one touches an earlier one's output. */
  lemma {:induction false} EscapeIsOnePass(s: string)
    ensures Escape(s) == EscapeEach(s)
  {
    if s != "" {
      EscapeOne(s[0]);
      EscapeConcat([s[0]], s[1..]);
      assert s == [s[0]] + s[1..];
      EscapeIsOnePass(s[1..]);
    }
  }

  lemma {:induction false} EscapeEachIsRaw(s: string)
    ensures forall c :: c in EscapeEach(s) ==> c !in "<>\"'"
  {
    if s != "" {
      EscapeEachIsRaw(s[1..]);
      assert forall c :: c in Entity(s[0]) ==> c !in "<>\"'";
    }
  }

  /** Nothing an escaped string holds can open a tag or end an attribute. */
  lemma EscapedIsInert(s: string)
    ensures forall c :: c in Escape(s) ==> c !in "<>\"'"
  {
    EscapeIsOnePass(s);
    EscapeEachIsRaw(s);
  }

  lemma {:induction false} UnescapeEach(s: string)
    ensures Unescape(EscapeEach(s)) == s
  {
    if s != "" {
      UnescapeEach(s[1..]);
      UnescapeEntity(s[0], EscapeEach(s[1..]));
      assert s == [s[0]] + s[1..];
    }
  }

  lemma UnescapeEntity(c: char, tail: string)
    ensures Unescape(Entity(c) + tail) == [c] + Unescape(tail)
  {
    var e := Entity(c);
    var s := e + tail;
    assert s[..|e|] == e && s[|e|..] == tail && s[0] == e[0];
    if c == '&' {
      assert "&amp;" <= s;
    } else if c == '<' {
      assert s[1] == 'l' && "&lt;" <= s;
    } else if c == '>' {
      assert s[1] == 'g' && "&gt;" <= s;
    } else if c == '"' {
      assert s[1] == 'q' && "&quot;" <= s;
    } else if c == '\'' {
      assert s[1] == '#' && "&#39;" <= s;
    } else {
      assert s[0] == c && s[0] != '&';
    }
  }

  /** The browser reads back exactly what was escaped. */
  lemma UnescapeEscaped(s: string)
    ensures Unescape(Escape(s)) == s
  {
    EscapeIsOnePass(s);
    UnescapeEach(s);
  }
}
