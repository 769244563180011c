/** Server-side rendering: links go out with a placeholder, and a second pass over the page resolves them. */
module Ssr {
  import opened Bytes
  import opened Decimals
  import opened Entities
  import opened Uri
  import opened Url

  datatype Line =
    | Heading(level: nat, text: string) | Plain(text: string) | Blank | ListItem(text: string) | BlockQuote(text: string)
    | CodeFence | Code(text: string) | Link(url: string, description: Option<string>) | Other(text: string)

  /** anon://__RESOLVE__ */
  const PLACEHOLDER: string := "anon" + (":" + ("/" + ("/" + "__RESOLVE__")))
  /** The placeholder as it stands in a page: anon%3A%2F%2F__RESOLVE__ */
  const MARKER: string := "anon" + ("%3A" + ("%2F" + ("%2F" + "__RESOLVE__")))

  // ----- First pass -----

  predicate IsRelative(url: string) { "/" <= url || "?" <= url }

  predicate InNetwork(url: string) { IsAnon(url) || IsRelative(url) }

  function Display(l: Line): string
    requires l.Link?
  {
    if l.description.Some? then l.description.value else l.url
  }

  /** What a link's row holds before its address. */
  function LinkFront(l: Line, n: nat): string
    requires l.Link?
  {
    "<div class=\"link\"><span class=\"marker\">[" + Decimal(n) + (if InNetwork(l.url) then "]" else "↗]") + "</span><a class=\""
    + (if InNetwork(l.url) then "" else "ext") + "\" href=\""
  }

  /** And after it. */
  function LinkBack(l: Line): string
    requires l.Link?
  {
    "\"" + (if InNetwork(l.url) then "" else " target=\"_blank\" rel=\"noopener noreferrer\"") + ">" + Escape(Display(l))
    + "</a><span class=\"hint\">" + Escape(l.url) + "</span></div>"
  }

  /** The element a line of text stands in. */
  function Open(l: Line): string
    requires !l.Link? && !l.CodeFence?
  {
    match l
    case Heading(level, _) => if level == 1 then "<h1 class=\"h1\">" else if level == 2 then "<h2 class=\"h2\">" else "<h3 class=\"h3\">"
    case Plain(_) => "<p class=\"plain\">"
    case Blank => "<div class=\"blank\">"
    case ListItem(_) => "<div class=\"list\">" + ("<span class=\"list-bullet\">" + "•</span> ")
    case BlockQuote(_) => "<div class=\"bq\">"
    case Code(_) => "<div class=\"code\">"
    case Other(_) => "<p class=\"plain\">"
  }

  function Close(l: Line): string
    requires !l.Link? && !l.CodeFence?
  {
    match l
    case Heading(level, _) => if level == 1 then "</h1>" else if level == 2 then "</h2>" else "</h3>"
    case Plain(_) => "</p>"
    case Other(_) => "</p>"
    case _ => "</div>"
  }

  function TextOf(l: Line): string
    requires !l.Link? && !l.CodeFence?
  {
    match l
    case Blank => ""
    case Heading(_, text) => text
    case Plain(text) => text
    case ListItem(text) => text
    case BlockQuote(text) => text
    case Code(text) => text
    case Other(text) => text
  }

  /** A line of the page; `href` says what stands in the address of a relative link after `/?url=`. */
  function RenderLine(l: Line, n: nat, href: string -> string): string
  {
    match l
    case CodeFence => ""
    case Link(url, _) =>
      LinkFront(l, n) + (if IsAnon(url) || !IsRelative(url) then Escape(url) else "/?url=" + href(url)) + LinkBack(l)
    case _ => Open(l) + Escape(TextOf(l)) + Close(l)
  }

  function Number(l: Line, n: nat): nat { if l.Link? then n + 1 else n }

  /** The page, with `n` links before it. */
  function Page(lines: seq<Line>, n: nat, href: string -> string): string
  {
    if lines == [] then "" else
    var n' := Number(lines[0], n);
    RenderLine(lines[0], n', href) + Page(lines[1..], n', href)
  }

  /** What the first pass writes: the placeholder and the target, encoded, then escaped with the rest. */
  function Placed(target: string): string { Escape(Encode(PLACEHOLDER + target)) }

  function Join(parts: seq<string>): string { if parts == [] then "" else Join(parts[..|parts| - 1]) + parts[|parts| - 1] }

  method SsrRenderLines(lines: seq<Line>) returns (html: string)
    ensures html == Page(lines, 0, Placed)
  {
    var parts: seq<string>, linkN := [], 0;
    for i := 0 to |lines|
      invariant Join(parts) + Page(lines[i..], linkN, Placed) == Page(lines, 0, Placed)
    {
      var l := lines[i];
      assert lines[i..][1..] == lines[i + 1..];
      ghost var before, rest := parts, Page(lines[i + 1..], Number(l, linkN), Placed);
      match l {
        case CodeFence =>
        case Link(url, _) =>
          linkN := linkN + 1;
          var href := if !InNetwork(url) then url else if IsAnon(url) then url else "/?url=" + Encode(PLACEHOLDER + url);
          if InNetwork(url) && !IsAnon(url) { EscapedHref(url); }
          parts := parts + [LinkFront(l, linkN) + Escape(href) + LinkBack(l)];
        case _ =>
          parts := parts + [RenderLine(l, linkN, Placed)];
      }
      if !l.CodeFence? {
        assert parts[..|parts| - 1] == before;
        Associate(Join(before), parts[|before|], rest);
      } else {
        assert "" + rest == rest;
      }
    }
    assert lines[|lines|..] == [];
    assert Join(parts) + "" == Join(parts);
    html := Join(parts);
  }

  lemma EscapedHref(target: string)
    ensures Escape("/?url=" + Encode(PLACEHOLDER + target)) == "/?url=" + Placed(target)
  {
    EscapeAfter("/?url=", Encode(PLACEHOLDER + target));
  }

  // ----- Second pass -----

  /** The leading characters up to the next double quote. */
  function UntilQuote(s: string): (n: nat)
    ensures n <= |s|
    ensures '"' !in s[..n] && (n < |s| ==> s[n] == '"')
  {
    if s == "" || s[0] == '"' then 0 else 1 + UntilQuote(s[1..])
  }

  /** Global replacement of the marker and what follows it up to a double quote, leftmost first. */
  function ReplaceMarked(html: string, rewrite: string -> string): string
    decreases |html|
  {
    if html == "" then "" else
    var n := if MARKER <= html then UntilQuote(html[|MARKER|..]) else 0;
    if n > 0 then rewrite(html[|MARKER|..][..n]) + ReplaceMarked(html[|MARKER| + n..], rewrite)
    else [html[0]] + ReplaceMarked(html[1..], rewrite)
  }

  /** The absolute URL for a decoded target. */
  function Absolute(p: Parts, target: string): string
  {
    if "/" <= target then ANON + p.host + target
    else if "?" <= target then ANON + p.host + p.path + target
    else ANON + p.host + p.base + target
  }

  /** The replacement for one marked address: decoded if it decodes, resolved, encoded again. */
  function Rewrite(current: string, rel: string): string
    requires IsAnon(current)
  {
    Encode(Absolute(Cut(current), match Decode(rel) case Some(decoded) => decoded case None => rel))
  }

  function SsrResolveLinks(html: string, current: string): string
  {
    if !IsAnon(current) then html else ReplaceMarked(html, rel => Rewrite(current, rel))
  }

  // ----- Where the marker is not -----

  predicate Barrier(c: char) { c !in MARKER }

  ghost predicate OccursAt(s: string, i: nat) { i + |MARKER| <= |s| && forall k :: 0 <= k < |MARKER| ==> s[i + k] == MARKER[k] }

  ghost predicate Clean(s: string) { forall i: nat :: !OccursAt(s, i) }

  lemma CleanIsNoPrefix(s: string)
    ensures MARKER <= s <==> OccursAt(s, 0)
  {
    if OccursAt(s, 0) { assert s[..|MARKER|] == MARKER; }
  }

  lemma NoPercentIsClean(s: string)
    requires '%' !in s
    ensures Clean(s)
  {
    forall i: nat ensures !OccursAt(s, i) {
      if i + 4 < |s| { assert s[i + 4] in s && MARKER[4] == '%'; }
    }
  }

  lemma OccursLater(a: string, b: string, i: nat)
    requires i >= |a|
    ensures OccursAt(a + b, i) <==> OccursAt(b, i - |a|)
  {
    assert forall k :: i <= k < |a + b| ==> (a + b)[k] == b[k - |a|];
    if OccursAt(b, i - |a|) {
      forall k | 0 <= k < |MARKER| ensures (a + b)[i + k] == MARKER[k] { assert b[i - |a| + k] == MARKER[k]; }
    }
    if OccursAt(a + b, i) {
      forall k | 0 <= k < |MARKER| ensures b[i - |a| + k] == MARKER[k] { assert (a + b)[i + k] == MARKER[k]; }
    }
  }

  /** No occurrence runs across a character the marker does not have. */
  lemma CleanJoin(a: string, b: string)
    requires Clean(a) && Clean(b) && (a == "" || Barrier(a[|a| - 1]) || (b != "" && Barrier(b[0])))
    ensures Clean(a + b)
  {
    forall i: nat ensures !OccursAt(a + b, i) {
      if i >= |a| {
        OccursLater(a, b, i);
      } else if i + |MARKER| <= |a| {
        assert !OccursAt(a, i);
        var k :| 0 <= k < |MARKER| && a[i + k] != MARKER[k];
        assert (a + b)[i + k] != MARKER[k];
      } else if i + |MARKER| <= |a + b| {
        var k := |a| - 1 - i;
        assert MARKER[k] in MARKER && MARKER[k + 1] in MARKER;
        assert (a + b)[i + k] == a[|a| - 1] && (a + b)[i + (k + 1)] == b[0];
      }
    }
  }

  lemma {:induction false} PrefixUnescaped(p: string, s: string)
    requires p <= EscapeEach(s) && '&' !in p
    ensures p <= s
  {
    if p != "" {
      assert p[0] == EscapeEach(s)[0] == Entity(s[0])[0];
      assert p[0] in p;
      PlainEntity(s[0]);
      assert EscapeEach(s)[1..] == EscapeEach(s[1..]);
      assert p[1..] <= EscapeEach(s)[1..];
      PrefixUnescaped(p[1..], s[1..]);
    }
  }

  lemma PlainEntity(c: char)
    ensures if Entity(c)[0] == '&' then '%' !in Entity(c) && Entity(c)[|Entity(c)| - 1] == ';' else Entity(c) == [c]
  {
  }

  lemma CleanTail(s: string)
    requires Clean(s) && s != ""
    ensures Clean(s[1..])
  {
    forall i: nat ensures !OccursAt(s[1..], i) {
      OccursLater(s[..1], s[1..], i + 1);
      assert s == s[..1] + s[1..];
    }
  }

  lemma {:induction false} EscapeEachClean(s: string)
    requires Clean(s)
    ensures Clean(EscapeEach(s))
  {
    if s != "" {
      CleanTail(s);
      EscapeEachClean(s[1..]);
      var e, rest := Entity(s[0]), EscapeEach(s[1..]);
      PlainEntity(s[0]);
      if e[0] == '&' {
        NoPercentIsClean(e);
        CleanJoin(e, rest);
      } else {
        NotAtFront(s);
        forall i: nat ensures !OccursAt(EscapeEach(s), i) {
          if i > 0 { OccursLater(e, rest, i); }
        }
      }
    }
  }

  lemma NotAtFront(s: string)
    requires Clean(s)
    ensures !OccursAt(EscapeEach(s), 0)
  {
    if OccursAt(EscapeEach(s), 0) {
      CleanIsNoPrefix(EscapeEach(s));
      PrefixUnescaped(MARKER, s);
      CleanIsNoPrefix(s);
    }
  }

  lemma EscapeClean(s: string)
    requires Clean(s)
    ensures Clean(Escape(s))
  {
    EscapeIsOnePass(s);
    EscapeEachClean(s);
  }

  function CountLinks(lines: seq<Line>): nat
  {
    if lines == [] then 0 else (if lines[0].Link? then 1 else 0) + CountLinks(lines[1..])
  }

  lemma PageCons(lines: seq<Line>, n: nat, href: string -> string)
    requires lines != []
    ensures var n' := Number(lines[0], n); Page(lines, n, href) == RenderLine(lines[0], n', href) + Page(lines[1..], n', href)
  {
  }

  lemma OneLine(l: Line, n: nat, href: string -> string)
    ensures Page([l], n, href) == RenderLine(l, Number(l, n), href)
  {
    PageCons([l], n, href);
    assert [l][1..] == [];
    assert RenderLine(l, Number(l, n), href) + "" == RenderLine(l, Number(l, n), href);
  }

  /** The number a line gets: one more than the links before it, if it is a link itself. */
  function NumberAt(lines: seq<Line>, l: Line, n: nat): nat { n + CountLinks(lines) + if l.Link? then 1 else 0 }

  lemma NumberAtRest(lines: seq<Line>, l: Line, n: nat)
    requires lines != []
    ensures NumberAt(lines[1..], l, Number(lines[0], n)) == NumberAt(lines, l, n)
  {
  }

  lemma PageStep(first: string, page: string, page': string, row: string, whole: string, whole': string)
    requires whole == first + page && whole' == first + page' && page' == page + row
    ensures whole' == whole + row
  {
  }

  /** A page is its lines in order, each link under its number. */
  lemma {:induction false} PageSnoc(lines: seq<Line>, l: Line, n: nat, href: string -> string, row: string)
    requires row == RenderLine(l, NumberAt(lines, l, n), href)
    ensures Page(lines + [l], n, href) == Page(lines, n, href) + row
  {
    if lines == [] {
      assert [] + [l] == [l];
      OneLine(l, n, href);
      assert "" + row == row;
    } else {
      var n' := Number(lines[0], n);
      var rest := lines[1..];
      assert (lines + [l])[1..] == rest + [l] && (lines + [l])[0] == lines[0];
      PageCons(lines + [l], n, href);
      PageCons(lines, n, href);
      NumberAtRest(lines, l, n);
      PageSnoc(rest, l, n', href, row);
      PageStep(RenderLine(lines[0], n', href), Page(rest, n', href), Page(rest + [l], n', href), row, Page(lines, n, href), Page(lines + [l], n, href));
    }
  }

  // ----- The second pass over a page -----

  /** Without an anon:// page nothing is rewritten. */
  lemma NoPageNoChange(html: string, current: string)
    requires !IsAnon(current)
    ensures SsrResolveLinks(html, current) == html
  {
  }

  lemma PassesOne(html: string, rewrite: string -> string)
    requires html != "" && !(MARKER <= html)
    ensures ReplaceMarked(html, rewrite) == [html[0]] + ReplaceMarked(html[1..], rewrite)
  {
  }

  /** A stretch without the marker that ends with a barrier passes through. */
  lemma {:induction false} PassesThrough(p: string, q: string, rewrite: string -> string)
    requires Clean(p) && (p == "" || Barrier(p[|p| - 1]))
    ensures ReplaceMarked(p + q, rewrite) == p + ReplaceMarked(q, rewrite)
  {
    if p == "" {
      assert p + q == q && p + ReplaceMarked(q, rewrite) == ReplaceMarked(q, rewrite);
    } else {
      NotAcross(p, q);
      CleanTail(p);
      PassesThrough(p[1..], q, rewrite);
      assert (p + q)[0] == p[0] && (p + q)[1..] == p[1..] + q;
      PassesOne(p + q, rewrite);
      Associate([p[0]], p[1..], ReplaceMarked(q, rewrite));
      assert [p[0]] + p[1..] == p;
    }
  }

  lemma NotAcross(p: string, q: string)
    requires p != "" && Clean(p) && Barrier(p[|p| - 1])
    ensures !(MARKER <= p + q)
  {
    CleanIsNoPrefix(p + q);
    if |MARKER| <= |p| {
      assert !OccursAt(p, 0);
      var k :| 0 <= k < |MARKER| && p[0 + k] != MARKER[k];
      assert (p + q)[0 + k] != MARKER[k];
    } else if |MARKER| <= |p + q| {
      assert MARKER[|p| - 1] in MARKER && (p + q)[0 + (|p| - 1)] == p[|p| - 1];
    }
  }

  lemma {:induction false} UntilQuoteStops(rel: string, q: string)
    requires '"' !in rel && q != "" && q[0] == '"'
    ensures UntilQuote(rel + q) == |rel|
  {
    if rel == "" {
      assert rel + q == q;
    } else {
      assert (rel + q)[1..] == rel[1..] + q;
      UntilQuoteStops(rel[1..], q);
    }
  }

  lemma MarkedIsRewritten(rel: string, q: string, rewrite: string -> string)
    requires rel != "" && '"' !in rel && q != "" && q[0] == '"'
    ensures ReplaceMarked(MARKER + rel + q, rewrite) == rewrite(rel) + ReplaceMarked(q, rewrite)
  {
    var html := MARKER + rel + q;
    assert html[..|MARKER|] == MARKER && html[|MARKER|..] == rel + q;
    UntilQuoteStops(rel, q);
    assert (rel + q)[..|rel|] == rel && html[|MARKER| + |rel|..] == q;
  }

  /** The marker with nothing before the next quote, or the end, is no match. */
  lemma MarkerAloneStays(q: string, rewrite: string -> string)
    requires q == "" || q[0] == '"'
    ensures ReplaceMarked(MARKER + q, rewrite) == ['a'] + ReplaceMarked((MARKER + q)[1..], rewrite)
  {
    assert (MARKER + q)[|MARKER|..] == q && MARKER[0] == 'a';
  }

  // ----- Lines -----

  /** How the rows of a page are written: headings. */
  lemma HeadingRows(text: string, n: nat, href: string -> string)
    ensures RenderLine(Heading(1, text), n, href) == "<h1 class=\"h1\">" + Escape(text) + "</h1>"
    ensures RenderLine(Heading(2, text), n, href) == "<h2 class=\"h2\">" + Escape(text) + "</h2>"
    ensures RenderLine(Heading(3, text), n, href) == "<h3 class=\"h3\">" + Escape(text) + "</h3>"
  {
  }

  /** Texts. */
  lemma TextRows(text: string, n: nat, href: string -> string)
    ensures RenderLine(Plain(text), n, href) == RenderLine(Other(text), n, href) == "<p class=\"plain\">" + Escape(text) + "</p>"
    ensures RenderLine(BlockQuote(text), n, href) == "<div class=\"bq\">" + Escape(text) + "</div>"
    ensures RenderLine(Code(text), n, href) == "<div class=\"code\">" + Escape(text) + "</div>"
    ensures RenderLine(CodeFence, n, href) == ""
  {
  }

  lemma BlankRow(n: nat, href: string -> string)
    ensures RenderLine(Blank, n, href) == "<div class=\"blank\">" + "</div>"
  {
    EscapeFixes("");
    assert "<div class=\"blank\">" + "" == "<div class=\"blank\">";
  }

  lemma ListRow(text: string, n: nat, href: string -> string)
    ensures RenderLine(ListItem(text), n, href)
         == "<div class=\"list\">" + ("<span class=\"list-bullet\">" + "•</span> ") + Escape(text) + "</div>"
  {
  }

  /** Links: numbered, to the network or out of it. */
  lemma LinkRows(url: string, description: Option<string>, n: nat, href: string -> string)
    ensures var shown := if description.Some? then description.value else url;
      var row := RenderLine(Link(url, description), n, href);
      if "anon://" <= url || "/" <= url || "?" <= url
      then row == ("<div class=\"link\"><span class=\"marker\">[" + Decimal(n) + "]" + "</span><a class=\"" + "" + "\" href=\"")
                  + (if "anon://" <= url then Escape(url) else "/?url=" + href(url))
                  + ("\"" + "" + ">" + Escape(shown) + "</a><span class=\"hint\">" + Escape(url) + "</span></div>")
      else row == ("<div class=\"link\"><span class=\"marker\">[" + Decimal(n) + "↗]" + "</span><a class=\"" + "ext" + "\" href=\"")
                  + Escape(url)
                  + ("\"" + " target=\"_blank\" rel=\"noopener noreferrer\"" + ">" + Escape(shown) + "</a><span class=\"hint\">" + Escape(url) + "</span></div>")
  {
  }

  /** No text of the line holds the marker. */
  ghost predicate CleanLine(l: Line)
  {
    match l
    case CodeFence => true
    case Link(url, description) => Clean(url) && (description.Some? ==> Clean(description.value))
    case _ => Clean(TextOf(l))
  }

  ghost predicate CleanLines(lines: seq<Line>) { forall i :: 0 <= i < |lines| ==> CleanLine(lines[i]) }

  /** An element around an escaped text. */
  lemma CleanElement(open: string, text: string, close: string)
    requires '%' !in open && open != "" && Barrier(open[|open| - 1])
    requires '%' !in close && close != "" && Barrier(close[0])
    requires Clean(text)
    ensures Clean(open + Escape(text) + close)
  {
    NoPercentIsClean(open);
    CleanThen(open, text, close);
  }

  lemma CleanFront(l: Line, n: nat)
    requires l.Link?
    ensures Clean(LinkFront(l, n)) && LinkFront(l, n) != "" && LinkFront(l, n)[|LinkFront(l, n)| - 1] == '"'
  {
    var a, b := "<div class=\"link\"><span class=\"marker\">[", if InNetwork(l.url) then "]" else "↗]";
    var c, d, e := "</span><a class=\"", if InNetwork(l.url) then "" else "ext", "\" href=\"";
    assert '%' !in a && '%' !in b && '%' !in c && '%' !in d && '%' !in e;
    var front := a + Decimal(n) + b + c + d + e;
    assert front == LinkFront(l, n);
    assert '%' !in front;
    assert front[|front| - 1] == e[|e| - 1];
    NoPercentIsClean(front);
  }

  lemma CleanBack(l: Line)
    requires l.Link? && CleanLine(l)
    ensures var b := LinkBack(l); Clean(b) && b != "" && b[0] == '"' && b[|b| - 1] == '>'
  {
    var open := "\"" + (if InNetwork(l.url) then "" else " target=\"_blank\" rel=\"noopener noreferrer\"") + ">";
    var mid, end := "</a><span class=\"hint\">", "</span></div>";
    BackTags(l);
    BackIsClean(open, Display(l), mid, l.url, end);
    assert LinkBack(l) == open + Escape(Display(l)) + mid + Escape(l.url) + end;
  }

  lemma BackTags(l: Line)
    requires l.Link?
    ensures var open := "\"" + (if InNetwork(l.url) then "" else " target=\"_blank\" rel=\"noopener noreferrer\"") + ">";
      '%' !in open && open[0] == '"' && open[|open| - 1] == '>'
    ensures '%' !in "</a><span class=\"hint\">" && '%' !in "</span></div>"
  {
    assert '%' !in " target=\"_blank\" rel=\"noopener noreferrer\"";
    assert '%' !in "" && '%' !in "\"" && '%' !in ">";
    QuotedTag(if InNetwork(l.url) then "" else " target=\"_blank\" rel=\"noopener noreferrer\"");
  }

  lemma QuotedTag(attributes: string)
    requires '%' !in attributes
    ensures var open := "\"" + attributes + ">"; '%' !in open && open[0] == '"' && open[|open| - 1] == '>'
  {
  }

  lemma BackIsClean(open: string, a: string, mid: string, b: string, end: string)
    requires '%' !in open && open != "" && open[0] == '"' && open[|open| - 1] == '>'
    requires '%' !in mid && mid != "" && mid[0] == '<' && mid[|mid| - 1] == '>'
    requires '%' !in end && end != "" && end[0] == '<' && end[|end| - 1] == '>'
    requires Clean(a) && Clean(b)
    ensures var s := open + Escape(a) + mid + Escape(b) + end; Clean(s) && s[0] == '"' && s[|s| - 1] == '>'
  {
    Brackets();
    CleanElement(open, a, mid);
    var first := open + Escape(a) + mid;
    assert first[|first| - 1] == '>' && first[0] == '"';
    CleanThen(first, b, end);
  }

  lemma Brackets()
    ensures Barrier('<') && Barrier('>') && Barrier('"') && Barrier(' ') && Barrier('=')
  {
  }

  lemma CleanThen(front: string, text: string, close: string)
    requires Clean(front) && front != "" && Barrier(front[|front| - 1])
    requires '%' !in close && close != "" && Barrier(close[0]) && Clean(text)
    ensures Clean(front + Escape(text) + close)
  {
    NoPercentIsClean(close);
    EscapeClean(text);
    CleanJoin(front, Escape(text));
    CleanJoin(front + Escape(text), close);
  }

  lemma OpenIsTag(l: Line)
    requires !l.Link? && !l.CodeFence?
    ensures var s := Open(l); '%' !in s && s != "" && (s[|s| - 1] == '>' || s[|s| - 1] == ' ')
  {
    match l
    case Heading(level, _) =>
      if level == 1 { assert '%' !in "<h1 class=\"h1\">"; } else if level == 2 { assert '%' !in "<h2 class=\"h2\">"; } else { assert '%' !in "<h3 class=\"h3\">"; }
    case Plain(_) => assert '%' !in "<p class=\"plain\">";
    case Blank => assert '%' !in "<div class=\"blank\">";
    case ListItem(_) =>
      assert '%' !in "<div class=\"list\">";
      assert '%' !in "<span class=\"list-bullet\">";
      assert '%' !in "•</span> ";
    case BlockQuote(_) => assert '%' !in "<div class=\"bq\">";
    case Code(_) => assert '%' !in "<div class=\"code\">";
    case Other(_) => assert '%' !in "<p class=\"plain\">";
  }

  lemma CloseIsTag(l: Line)
    requires !l.Link? && !l.CodeFence?
    ensures var s := Close(l); '%' !in s && s != "" && s[0] == '<' && s[|s| - 1] == '>'
  {
    match l
    case Heading(level, _) => if level == 1 { assert Close(l) == "</h1>"; } else if level == 2 { assert Close(l) == "</h2>"; } else { assert Close(l) == "</h3>"; }
    case Plain(_) => assert Close(l) == "</p>";
    case Other(_) => assert Close(l) == "</p>";
    case Blank => assert Close(l) == "</div>";
    case ListItem(_) => assert Close(l) == "</div>";
    case BlockQuote(_) => assert Close(l) == "</div>";
    case Code(_) => assert Close(l) == "</div>";
  }

  lemma CleanText(l: Line, n: nat, href: string -> string)
    requires !l.Link? && CleanLine(l)
    ensures var s := RenderLine(l, n, href); Clean(s) && (s == "" || Barrier(s[|s| - 1]))
  {
    Brackets();
    if !l.CodeFence? {
      OpenIsTag(l);
      CloseIsTag(l);
      CleanElement(Open(l), TextOf(l), Close(l));
    }
  }

  // ----- Results -----

  /** What the second pass makes of a relative target: apostrophes come out as the entity they went in as. */
  function Resolved(current: string, target: string): string { Encode(ResolveUrl(Some(current), Quote(target))) }

  lemma PlacedIsMarked(target: string)
    ensures Placed(target) == MARKER + Escape(Encode(target))
  {
    PlaceholderIsPlain();
    PlaceholderInFront("anon", "__RESOLVE__", target);
    InFront("anon", ":", "/", "/", "__RESOLVE__", target);
    InFront("anon", "%3A", "%2F", "%2F", "__RESOLVE__", Escape(Encode(target)));
  }

  lemma PlaceholderIsPlain()
    ensures IsPlain("anon") && IsPlain("__RESOLVE__")
  {
  }

  lemma InFront(a: string, b: string, c: string, d: string, e: string, tail: string)
    ensures (a + (b + (c + (d + e)))) + tail == a + (b + (c + (d + (e + tail))))
  {
  }

  lemma PlaceholderInFront(a: string, b: string, target: string)
    requires IsPlain(a) && IsPlain(b)
    ensures Escape(Encode(a + ([':'] + (['/'] + (['/'] + (b + target))))))
         == a + ("%3A" + ("%2F" + ("%2F" + (b + Escape(Encode(target))))))
  {
    PlainInFront(b, target);
    SeparatorsInFront(b + target);
    PlainInFront(a, [':'] + (['/'] + (['/'] + (b + target))));
  }

  lemma SeparatorsInFront(tail: string)
    ensures Escape(Encode([':'] + (['/'] + (['/'] + tail)))) == "%3A" + ("%2F" + ("%2F" + Escape(Encode(tail))))
  {
    EncodeOne(':'); EncodeOne('/');
    ThreeInFront(':', '/', "%3A", "%2F", tail);
  }

  lemma ThreeInFront(c: char, d: char, c': string, d': string, tail: string)
    requires EncodeChar(c) == c' && EncodeChar(d) == d' && |c'| == |d'| == 3 && Inert(c') && Inert(d')
    ensures Escape(Encode([c] + ([d] + ([d] + tail)))) == c' + (d' + (d' + Escape(Encode(tail))))
  {
    OneInFront(d, d', tail, Escape(Encode(tail)));
    OneInFront(d, d', [d] + tail, d' + Escape(Encode(tail)));
    OneInFront(c, c', [d] + ([d] + tail), d' + (d' + Escape(Encode(tail))));
  }

  lemma OneInFront(c: char, encoded: string, tail: string, rest: string)
    requires EncodeChar(c) == encoded && |encoded| == 3 && Inert(encoded) && Escape(Encode(tail)) == rest
    ensures Escape(Encode([c] + tail)) == encoded + rest
  {
    EncodedInFront(c, encoded, tail);
  }

  lemma PlainInFront(a: string, tail: string)
    requires IsPlain(a)
    ensures Escape(Encode(a + tail)) == a + Escape(Encode(tail))
  {
    PlainPassesBoth(a);
    EncodeConcat(a, tail);
    EscapeAfter(a, Encode(tail));
  }

  lemma EncodedInFront(c: char, encoded: string, tail: string)
    requires EncodeChar(c) == encoded && Inert(encoded)
    ensures Escape(Encode([c] + tail)) == encoded + Escape(Encode(tail))
  {
    EncodeOne(c);
    EncodeConcat([c], tail);
    EscapeAfter(encoded, Encode(tail));
  }

  lemma RelativeQuoted(target: string)
    requires IsRelative(target)
    ensures IsRelative(Quote(target)) && !IsAnon(Quote(target)) && ("/" <= Quote(target) <==> "/" <= target)
  {
    assert Quote(target)[0] == target[0];
  }

  /** The rewriter, on what the first pass left of any target that is not absolute, is the client's resolver. */
  lemma RewriteIsResolve(current: string, target: string)
    requires IsAnon(current) && !IsAnon(Quote(target))
    ensures Rewrite(current, Escape(Encode(target))) == Resolved(current, target)
  {
    DecodeEscapedEncoded(target);
  }

  lemma PlainLinkClean(l: Line, n: nat)
    requires l.Link? && CleanLine(l)
    ensures var s := LinkFront(l, n) + Escape(l.url) + LinkBack(l); Clean(s) && s != "" && Barrier(s[|s| - 1])
  {
    Brackets();
    CleanFront(l, n);
    CleanBack(l);
    EscapeClean(l.url);
    CleanJoin(LinkFront(l, n), Escape(l.url));
    CleanJoin(LinkFront(l, n) + Escape(l.url), LinkBack(l));
  }

  lemma RelativeFront(l: Line, n: nat)
    requires l.Link?
    ensures var front := LinkFront(l, n) + "/?url="; Clean(front) && front != "" && Barrier(front[|front| - 1])
  {
    Brackets();
    CleanFront(l, n);
    NoPercentIsClean("/?url=");
    CleanJoin(LinkFront(l, n), "/?url=");
  }

  lemma RelativeRest(target: string)
    requires IsRelative(target)
    ensures var rel := Escape(Encode(target)); rel != "" && '"' !in rel
  {
    EscapedIsInert(Encode(target));
    DecodeEscapedEncoded(target);
    RelativeQuoted(target);
  }

  lemma FourParts(a: string, b: string, c: string, d: string)
    ensures (a + b + c) + d == a + (b + (c + d))
  {
  }

  /** The three stretches of a relative link's row, resolved one by one. */
  lemma ThreeStretches(front: string, rel: string, back: string, rest: string, rewrite: string -> string)
    requires Clean(front) && front != "" && Barrier(front[|front| - 1])
    requires rel != "" && '"' !in rel
    requires Clean(back) && back != "" && back[0] == '"' && Barrier(back[|back| - 1])
    ensures ReplaceMarked((front + (MARKER + rel) + back) + rest, rewrite) == (front + rewrite(rel) + back) + ReplaceMarked(rest, rewrite)
  {
    PassesThrough(front, MARKER + rel + (back + rest), rewrite);
    MarkedIsRewritten(rel, back + rest, rewrite);
    PassesThrough(back, rest, rewrite);
    FourParts(front, MARKER + rel, back, rest);
    FourParts(front, rewrite(rel), back, ReplaceMarked(rest, rewrite));
  }

  lemma RelativeLinkResolves(l: Line, n: nat, rest: string, current: string)
    requires IsAnon(current) && l.Link? && CleanLine(l) && IsRelative(l.url) && !IsAnon(l.url)
    ensures SsrResolveLinks(RenderLine(l, n, Placed) + rest, current)
         == RenderLine(l, n, t => Resolved(current, t)) + SsrResolveLinks(rest, current)
  {
    var front, rel, back := LinkFront(l, n) + "/?url=", Escape(Encode(l.url)), LinkBack(l);
    Brackets();
    RelativeFront(l, n);
    RelativeRest(l.url);
    CleanBack(l);
    PlacedIsMarked(l.url);
    RelativeQuoted(l.url);
    RewriteIsResolve(current, l.url);
    ThreeStretches(front, rel, back, rest, rel => Rewrite(current, rel));
    Associate(LinkFront(l, n), "/?url=", Placed(l.url));
    Associate(LinkFront(l, n), "/?url=", Resolved(current, l.url));
  }

  lemma {:induction false} LineResolves(l: Line, n: nat, rest: string, current: string)
    requires IsAnon(current) && CleanLine(l)
    ensures SsrResolveLinks(RenderLine(l, n, Placed) + rest, current)
         == RenderLine(l, n, t => Resolved(current, t)) + SsrResolveLinks(rest, current)
  {
    var rewrite := rel => Rewrite(current, rel);
    Brackets();
    if !l.Link? {
      CleanText(l, n, Placed);
      PassesThrough(RenderLine(l, n, Placed), rest, rewrite);
    } else {
      CleanFront(l, n);
      CleanBack(l);
      if IsAnon(l.url) || !IsRelative(l.url) {
        PlainLinkClean(l, n);
        PassesThrough(RenderLine(l, n, Placed), rest, rewrite);
      } else {
        RelativeLinkResolves(l, n, rest, current);
      }
    }
  }

  /** The client's own resolution of a target, encoded. */
  function Direct(current: string, target: string): string { Encode(ResolveUrl(Some(current), target)) }

  /** What the two passes give, for every page none of whose texts holds the marker: the page rendered with
      each relative link resolved first, apostrophes in targets spelt as their entity. */
  lemma {:induction false} PageResolves(lines: seq<Line>, n: nat, current: string)
    requires IsAnon(current) && CleanLines(lines)
    ensures SsrResolveLinks(Page(lines, n, Placed), current) == Page(lines, n, t => Resolved(current, t))
  {
    if lines != [] {
      var n' := Number(lines[0], n);
      LineResolves(lines[0], n', Page(lines[1..], n', Placed), current);
      PageResolves(lines[1..], n', current);
    }
  }

  ghost predicate HasRelative(lines: seq<Line>, c: char)
  {
    exists i :: 0 <= i < |lines| && RelativeWith(lines[i], c)
  }

  ghost predicate RelativeWith(l: Line, c: char) { l.Link? && IsRelative(l.url) && c in l.url }

  lemma {:induction false} QuoteLengthens(target: string)
    ensures |Encode(Quote(target))| >= |Encode(target)|
    ensures '\'' in target ==> |Encode(Quote(target))| > |Encode(target)|
  {
    if target != "" {
      QuoteLengthens(target[1..]);
      var c, rest := target[0], Quote(target[1..]);
      var first := if c == '\'' then "&#39;" else [c];
      EncodeConcat(first, rest);
      if c == '\'' { EncodeGrows(first); } else { EncodeOne(c); }
    }
  }

  lemma {:induction false} EncodeGrows(s: string)
    ensures |Encode(s)| >= |s|
  {
    if s != "" { EncodeGrows(s[1..]); }
  }

  lemma ResolvedLength(current: string, target: string)
    requires IsAnon(current) && IsRelative(target)
    ensures |Resolved(current, target)| >= |Direct(current, target)|
    ensures '\'' in target ==> |Resolved(current, target)| > |Direct(current, target)|
    ensures '\'' !in target ==> Resolved(current, target) == Direct(current, target)
  {
    RelativeQuoted(target);
    QuoteLengthens(target);
    QuoteFixes(target);
    var p := Cut(current);
    var front := if "/" <= target then ANON + p.host else ANON + p.host + p.path;
    EncodeConcat(front, target);
    EncodeConcat(front, Quote(target));
  }

  lemma {:induction false} PageLength(lines: seq<Line>, n: nat, current: string)
    requires IsAnon(current)
    ensures var two, one := Page(lines, n, t => Resolved(current, t)), Page(lines, n, t => Direct(current, t));
      |two| >= |one| && (if HasRelative(lines, '\'') then |two| > |one| else two == one)
  {
    if lines != [] {
      var l, rest, n' := lines[0], lines[1..], Number(lines[0], n);
      PageLength(rest, n', current);
      if l.Link? && IsRelative(l.url) { ResolvedLength(current, l.url); }
      if HasRelative(lines, '\'') && !RelativeWith(l, '\'') {
        var i :| 0 <= i < |lines| && RelativeWith(lines[i], '\'');
        assert RelativeWith(rest[i - 1], '\'');
      }
      if HasRelative(rest, '\'') {
        var i :| 0 <= i < |rest| && RelativeWith(rest[i], '\'');
        assert RelativeWith(lines[i + 1], '\'');
      }
      if RelativeWith(l, '\'') { assert RelativeWith(lines[0], '\''); }
      LineLength(l, n', current);
    }
  }

  lemma SameUnlessRelative(l: Line, n: nat, f: string -> string, g: string -> string)
    requires l.Link? ==> IsAnon(l.url) || !IsRelative(l.url)
    ensures RenderLine(l, n, f) == RenderLine(l, n, g)
  {
  }

  lemma RelativeRow(l: Line, n: nat, href: string -> string)
    requires l.Link? && IsRelative(l.url)
    ensures RenderLine(l, n, href) == LinkFront(l, n) + ("/?url=" + href(l.url)) + LinkBack(l)
  {
    RelativeQuoted(l.url);
  }

  lemma LineLength(l: Line, n: nat, current: string)
    requires IsAnon(current)
    ensures var two, one := RenderLine(l, n, t => Resolved(current, t)), RenderLine(l, n, t => Direct(current, t));
      |two| >= |one| && if RelativeWith(l, '\'') then |two| > |one| else two == one
  {
    if l.Link? && IsRelative(l.url) {
      RelativeRow(l, n, t => Resolved(current, t));
      RelativeRow(l, n, t => Direct(current, t));
      ResolvedLength(current, l.url);
      SameFrame(LinkFront(l, n), "/?url=", Resolved(current, l.url), Direct(current, l.url), LinkBack(l));
    } else {
      SameUnlessRelative(l, n, t => Resolved(current, t), t => Direct(current, t));
    }
  }

  lemma SameFrame(front: string, mid: string, a: string, b: string, back: string)
    ensures |front + (mid + a) + back| - |a| == |front + (mid + b) + back| - |b|
  {
  }

  // ----- Texts that hold the marker -----

  /** How many tags open. */
  function Tags(s: string): nat { if s == "" then 0 else (if s[0] == '<' then 1 else 0) + Tags(s[1..]) }

  lemma {:induction false} TagsConcat(a: string, b: string)
    ensures Tags(a + b) == Tags(a) + Tags(b)
  {
    if a == "" {
      assert a + b == b;
    } else {
      assert (a + b)[1..] == a[1..] + b;
      TagsConcat(a[1..], b);
    }
  }

  lemma {:induction false} NoTags(s: string)
    requires '<' !in s
    ensures Tags(s) == 0
  {
    if s != "" { NoTags(s[1..]); }
  }

  lemma {:induction false} TagCounts(s: string, k: nat)
    requires k < |s| && s[k] == '<'
    ensures Tags(s) > 0
  {
    if k > 0 { TagCounts(s[1..], k - 1); }
  }

  ghost predicate TagFree(rewrite: string -> string) { forall rel :: '<' !in rewrite(rel) }

  lemma MatchTags(html: string, n: nat)
    requires |MARKER| + n <= |html|
    ensures Tags(html) >= Tags(html[|MARKER|..][..n]) + Tags(html[|MARKER| + n..])
  {
    var rest := html[|MARKER|..];
    TakeDrop(html, |MARKER|);
    TakeDrop(rest, n);
    TagsConcat(html[..|MARKER|], rest);
    TagsConcat(rest[..n], rest[n..]);
    assert rest[n..] == html[|MARKER| + n..];
  }

  /** Rewriting never adds a tag. */
  lemma {:induction false} NeverAddsTags(html: string, rewrite: string -> string)
    requires TagFree(rewrite)
    ensures Tags(ReplaceMarked(html, rewrite)) <= Tags(html)
    decreases |html|
  {
    if html != "" {
      var n := if MARKER <= html then UntilQuote(html[|MARKER|..]) else 0;
      if n > 0 {
        var rel, rest := html[|MARKER|..][..n], html[|MARKER| + n..];
        NeverAddsTags(rest, rewrite);
        MatchTags(html, n);
        NoTags(rewrite(rel));
        TagsConcat(rewrite(rel), ReplaceMarked(rest, rewrite));
      } else {
        NeverAddsTags(html[1..], rewrite);
        TagsConcat([html[0]], ReplaceMarked(html[1..], rewrite));
      }
    }
  }

  /** The marker stands at `i` and a tag opens at `k` before the next double quote. */
  ghost predicate Trap(s: string, i: nat, k: nat)
  {
    OccursAt(s, i) && i + |MARKER| <= k < |s| && s[k] == '<' && forall j :: i <= j < k ==> s[j] != '"'
  }

  ghost predicate Trapped(s: string) { exists i: nat, k: nat :: Trap(s, i, k) }

  lemma TrapBehind(a: string, b: string, i: nat, k: nat)
    requires |a| <= i
    ensures Trap(a + b, i, k) <==> k >= |a| && Trap(b, i - |a|, k - |a|)
  {
    OccursLater(a, b, i);
    if k >= |a| && Trap(b, i - |a|, k - |a|) {
      forall j | i <= j < k ensures (a + b)[j] != '"' { assert (a + b)[j] == b[j - |a|]; }
    }
    if Trap(a + b, i, k) {
      forall j | i - |a| <= j < k - |a| ensures b[j] != '"' { assert (a + b)[|a| + j] == b[j]; }
    }
  }

  lemma TrappedInside(a: string, b: string, c: string)
    requires Trapped(b)
    ensures Trapped(a + b) && Trapped(b + c) && Trapped(a + b + c)
  {
    var i: nat, k: nat :| Trap(b, i, k);
    TrapBehind(a, b, |a| + i, |a| + k);
    assert Trap(a + b, |a| + i, |a| + k);
    assert Trap(b + c, i, k);
    assert Trap(a + b + c, |a| + i, |a| + k);
  }

  lemma SwallowedTag(html: string, n: nat, k: nat)
    requires |MARKER| <= k < |MARKER| + n <= |html| && html[k] == '<'
    ensures Tags(html[|MARKER| + n..]) < Tags(html)
  {
    MatchTags(html, n);
    TagCounts(html[|MARKER|..][..n], k - |MARKER|);
  }

  /** A match swallows a trap's tag or leaves the whole trap behind it. */
  lemma TrapAtMatch(html: string, n: nat)
    requires Trapped(html) && MARKER <= html && n == UntilQuote(html[|MARKER|..])
    ensures var rest := html[|MARKER| + n..]; Tags(rest) < Tags(html) || Trapped(rest)
  {
    var i: nat, k: nat :| Trap(html, i, k);
    if k < |MARKER| + n {
      SwallowedTag(html, n, k);
    } else {
      assert html[|MARKER| + n] == html[|MARKER|..][n];
      TakeDrop(html, |MARKER| + n);
      TrapBehind(html[..|MARKER| + n], html[|MARKER| + n..], i, k);
    }
  }

  lemma NotAtOnce(html: string, i: nat, k: nat)
    requires Trap(html, i, k) && (MARKER <= html ==> UntilQuote(html[|MARKER|..]) == 0)
    ensures i > 0
  {
    CleanIsNoPrefix(html);
  }

  lemma TrappedLater(html: string)
    requires Trapped(html) && (MARKER <= html ==> UntilQuote(html[|MARKER|..]) == 0)
    ensures Trapped(html[1..])
  {
    var i: nat, k: nat :| Trap(html, i, k);
    NotAtOnce(html, i, k);
    TrapAfterFirst(html, i, k);
  }

  lemma TrapAfterFirst(html: string, i: nat, k: nat)
    requires Trap(html, i, k) && i > 0
    ensures Trap(html[1..], i - 1, k - 1)
  {
    TakeDrop(html, 1);
    TrapBehind(html[..1], html[1..], i, k);
  }

  lemma MatchedTags(html: string, n: nat, rewrite: string -> string)
    requires TagFree(rewrite) && MARKER <= html && n == UntilQuote(html[|MARKER|..]) > 0
    ensures Tags(ReplaceMarked(html, rewrite)) == Tags(ReplaceMarked(html[|MARKER| + n..], rewrite))
  {
    var rel, rest := html[|MARKER|..][..n], html[|MARKER| + n..];
    NoTags(rewrite(rel));
    TagsConcat(rewrite(rel), ReplaceMarked(rest, rewrite));
  }

  /** A trap costs a tag: a match, its own or one that began before it, swallows the tag. */
  lemma {:induction false} TrapCostsATag(html: string, rewrite: string -> string)
    requires TagFree(rewrite) && Trapped(html)
    ensures Tags(ReplaceMarked(html, rewrite)) < Tags(html)
    decreases |html|
  {
    var n := if MARKER <= html then UntilQuote(html[|MARKER|..]) else 0;
    if n > 0 {
      var rest := html[|MARKER| + n..];
      MatchedTags(html, n, rewrite);
      TrapAtMatch(html, n);
      NeverAddsTags(rest, rewrite);
      MatchTags(html, n);
      if Trapped(rest) { TrapCostsATag(rest, rewrite); }
    } else {
      TrappedLater(html);
      TrapCostsATag(html[1..], rewrite);
      TagsConcat([html[0]], ReplaceMarked(html[1..], rewrite));
    }
  }

  lemma EscapedMarker(a: string, b: string)
    ensures Escape(a + (MARKER + b)) == Escape(a) + (MARKER + Escape(b))
  {
    MarkerIsInert(MARKER);
    EscapeConcat(a, MARKER + b);
    EscapeAfter(MARKER, b);
  }

  lemma AroundMarker(text: string, at: nat)
    requires OccursAt(text, at)
    ensures text == text[..at] + (MARKER + text[at + |MARKER|..])
  {
    assert text[at..at + |MARKER|] == MARKER;
  }

  /** An escaped text keeps its marker, and the tag after it is then in a trap. */
  lemma UncleanTextTraps(text: string, close: string)
    requires !Clean(text) && close != "" && close[0] == '<'
    ensures Trapped(Escape(text) + close)
  {
    var at: nat :| OccursAt(text, at);
    var a, b := text[..at], text[at + |MARKER|..];
    AroundMarker(text, at);
    EscapedMarker(a, b);
    EscapedIsInert(b);
    MarkerTraps(Escape(b), close);
    FourInARow(Escape(a), MARKER, Escape(b), close);
    TrappedInside(Escape(a), MARKER + Escape(b) + close, "");
  }

  lemma FourInARow(a: string, b: string, c: string, d: string)
    ensures (a + (b + c)) + d == a + (b + c + d)
  {
  }

  lemma MarkerTraps(rest: string, close: string)
    requires '"' !in rest && close != "" && close[0] == '<'
    ensures Trapped(MARKER + rest + close)
  {
    var s := MARKER + rest + close;
    assert s[..|MARKER|] == MARKER && '"' !in MARKER;
    forall j | 0 <= j < |MARKER + rest| ensures s[j] != '"' {
      if j < |MARKER| { assert s[j] == MARKER[j] && MARKER[j] in MARKER; } else { assert s[j] == rest[j - |MARKER|]; }
    }
    assert Trap(s, 0, |MARKER + rest|);
  }

  /** A line with the marker in one of its texts has a trap, whatever its address. */
  lemma UncleanLineTraps(l: Line, n: nat, href: string -> string)
    requires !CleanLine(l)
    ensures Trapped(RenderLine(l, n, href))
  {
    if !l.Link? {
      CloseIsTag(l);
      UncleanTextTraps(TextOf(l), Close(l));
      TrappedInside(Open(l), Escape(TextOf(l)) + Close(l), "");
      Associate(Open(l), Escape(TextOf(l)), Close(l));
    } else {
      UncleanBackTraps(l);
      TrappedInside(LinkFront(l, n) + (if IsAnon(l.url) || !IsRelative(l.url) then Escape(l.url) else "/?url=" + href(l.url)), LinkBack(l), "");
    }
  }

  lemma UncleanBackTraps(l: Line)
    requires l.Link? && !CleanLine(l)
    ensures Trapped(LinkBack(l))
  {
    var open := "\"" + (if InNetwork(l.url) then "" else " target=\"_blank\" rel=\"noopener noreferrer\"") + ">";
    var mid, end := "</a><span class=\"hint\">", "</span></div>";
    var display, hint := Escape(Display(l)), Escape(l.url);
    assert LinkBack(l) == open + display + mid + hint + end;
    if !Clean(l.url) {
      UncleanTextTraps(l.url, end);
      TrappedInside(open + display + mid, hint + end, "");
      Associate(open + display + mid, hint, end);
    } else {
      UncleanTextTraps(Display(l), mid);
      TrappedInside(open, display + mid, hint + end);
      Associate(open, display, mid);
      Associate(open + display + mid, hint, end);
    }
  }

  lemma UncleanRest(lines: seq<Line>)
    requires !CleanLines(lines) && CleanLine(lines[0])
    ensures !CleanLines(lines[1..])
  {
    var at :| 0 <= at < |lines| && !CleanLine(lines[at]);
    assert lines[1..][at - 1] == lines[at];
  }

  lemma {:induction false} UncleanPageTraps(lines: seq<Line>, n: nat, href: string -> string)
    requires !CleanLines(lines)
    ensures Trapped(Page(lines, n, href))
  {
    var n' := Number(lines[0], n);
    var line, rest := RenderLine(lines[0], n', href), Page(lines[1..], n', href);
    PageCons(lines, n, href);
    if !CleanLine(lines[0]) {
      UncleanLineTraps(lines[0], n', href);
      TrappedInside("", line, rest);
    } else {
      UncleanRest(lines);
      UncleanPageTraps(lines[1..], n', href);
      TrappedInside(line, rest, "");
    }
  }

  /** Addresses hold no tags: two renderings of one page open equally many. */
  lemma {:induction false} SameTags(lines: seq<Line>, n: nat, f: string -> string, g: string -> string)
    requires TagFree(f) && TagFree(g)
    ensures Tags(Page(lines, n, f)) == Tags(Page(lines, n, g))
  {
    if lines != [] {
      var l, rest, n' := lines[0], lines[1..], Number(lines[0], n);
      SameTags(rest, n', f, g);
      PageCons(lines, n, f);
      PageCons(lines, n, g);
      TagsConcat(RenderLine(l, n', f), Page(rest, n', f));
      TagsConcat(RenderLine(l, n', g), Page(rest, n', g));
      SameLineTags(l, n', f, g);
    }
  }

  lemma SameLineTags(l: Line, n: nat, f: string -> string, g: string -> string)
    requires TagFree(f) && TagFree(g)
    ensures Tags(RenderLine(l, n, f)) == Tags(RenderLine(l, n, g))
  {
    if l.Link? {
      LinkTags(LinkFront(l, n), f(l.url), LinkBack(l));
      LinkTags(LinkFront(l, n), g(l.url), LinkBack(l));
    }
  }

  lemma LinkTags(front: string, href: string, back: string)
    requires '<' !in href
    ensures Tags(front + ("/?url=" + href) + back) == Tags(front) + Tags(back)
  {
    TagsConcat(front + ("/?url=" + href), back);
    TagsConcat(front, "/?url=" + href);
    NoTags("/?url=" + href);
  }

  lemma AddressesTagFree(current: string)
    requires IsAnon(current)
    ensures TagFree(Placed) && TagFree(t => Direct(current, t)) && TagFree(rel => Rewrite(current, rel))
  {
    assert !IsEncodedChar('<');
    forall t ensures '<' !in Placed(t) { EscapedIsInert(Encode(PLACEHOLDER + t)); }
    forall t ensures '<' !in Direct(current, t) { EncodeAlphabet(ResolveUrl(Some(current), t)); }
    forall rel ensures '<' !in Rewrite(current, rel) {
      EncodeAlphabet(Absolute(Cut(current), match Decode(rel) case Some(decoded) => decoded case None => rel));
    }
  }

  /** With the marker in a text, a hint or a target, the second pass swallows a tag. */
  lemma MarkerInTextCostsATag(lines: seq<Line>, current: string)
    requires IsAnon(current) && !CleanLines(lines)
    ensures Tags(SsrResolveLinks(Page(lines, 0, Placed), current)) < Tags(Page(lines, 0, t => Direct(current, t)))
  {
    AddressesTagFree(current);
    UncleanPageTraps(lines, 0, Placed);
    TrapCostsATag(Page(lines, 0, Placed), rel => Rewrite(current, rel));
    SameTags(lines, 0, Placed, t => Direct(current, t));
  }

  /** For every page, placeholder and second pass give what resolving every link first would give exactly if
      no text, hint or target holds the marker and no relative target has an apostrophe. */
  lemma TwoPassesAreOne(lines: seq<Line>, current: string)
    requires IsAnon(current)
    ensures SsrResolveLinks(Page(lines, 0, Placed), current) == Page(lines, 0, t => Direct(current, t))
       <==> CleanLines(lines) && !HasRelative(lines, '\'')
  {
    if CleanLines(lines) {
      PageResolves(lines, 0, current);
      PageLength(lines, 0, current);
    } else {
      MarkerInTextCostsATag(lines, current);
    }
  }

  /** Following a server-rendered relative link requests what the client's resolver would have navigated to,
      on the host of the page, exactly if the target has no apostrophe. */
  lemma LinkLeadsToResolved(current: string, target: string, lower: string -> string)
    requires IsAnon(current) && IsRelative(target)
    ensures Decode(Resolved(current, target)) == Some(ResolveUrl(Some(current), target)) <==> '\'' !in target
    ensures Decode(Resolved(current, target)).Some?
         && ExtractAnonHost(Decode(Resolved(current, target)).value, lower) == ExtractAnonHost(current, lower)
  {
    RelativeQuoted(target);
    DecodeEncoded(ResolveUrl(Some(current), Quote(target)));
    DecodeEncoded(ResolveUrl(Some(current), target));
    ResolvedLength(current, target);
    ResolutionStaysOnHost(current, Quote(target), lower);
  }

  lemma MarkerIsInert(m: string)
    requires m == MARKER
    ensures Inert(m)
  {
    assert Inert("anon") && Inert("%3A") && Inert("%2F") && Inert("__RESOLVE__");
  }
}
