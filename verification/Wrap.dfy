/** The word wrapper of the terminal browser, on UTF-16 code units. */
module Wrap {
  import opened Bytes

  newtype CodeUnit = u: int | 0 <= u < 0x1_0000

  type Text = seq<CodeUnit>

  /** White space and line terminators, as `\s` and `trimStart` have them. */
  predicate IsSpace(u: CodeUnit)
  {
    9 <= u <= 13 || u == 0x20 || u == 0xA0 || u == 0x1680 || 0x2000 <= u <= 0x200A
    || u == 0x2028 || u == 0x2029 || u == 0x202F || u == 0x205F || u == 0x3000 || u == 0xFEFF
  }

  lemma SpaceIs(u: CodeUnit)
    ensures IsSpace(u) <==> u in {0x09, 0x0A, 0x0B, 0x0C, 0x0D, 0x20, 0xA0, 0x1680, 0x2000, 0x2001, 0x2002, 0x2003, 0x2004, 0x2005, 0x2006,
                                  0x2007, 0x2008, 0x2009, 0x200A, 0x2028, 0x2029, 0x202F, 0x205F, 0x3000, 0xFEFF}
  {
  }

  // ----- Sequence facts -----

  lemma Cut<T>(t: seq<T>, i: nat, j: nat)
    requires i <= j <= |t|
    ensures t == t[..i] + t[i..j] + t[j..]
    ensures t[i..][j - i..] == t[j..]
  {
  }

  // ----- Tokens -----

  /** How many leading code units are white space (`space`) or are not. */
  function Span(t: Text, space: bool): (n: nat)
    ensures n <= |t|
    ensures forall i :: 0 <= i < n ==> IsSpace(t[i]) == space
    ensures n < |t| ==> IsSpace(t[n]) != space
  {
    if t == [] || IsSpace(t[0]) != space then 0 else 1 + Span(t[1..], space)
  }

  /** Splitting at runs of white space, keeping the runs: words at even places, maybe empty at both ends. */
  function Split(t: Text): (tokens: seq<Text>)
    ensures tokens != []
    decreases |t|
  {
    var w := Span(t, false);
    if w == |t| then [t] else [t[..w], t[w..GapEnd(t)]] + Split(t[GapEnd(t)..])
  }

  /** Where the first gap of `t` ends. */
  function GapEnd(t: Text): (e: nat)
    requires Span(t, false) < |t|
    ensures Span(t, false) < e <= |t|
    ensures forall i :: Span(t, false) <= i < e ==> IsSpace(t[i])
    ensures e < |t| ==> !IsSpace(t[e])
  {
    var w := Span(t, false);
    var s := Span(t[w..], true);
    assert forall i :: w <= i < w + s ==> t[i] == t[w..][i - w];
    assert t[w] == t[w..][0];
    assert w + s < |t| ==> t[w + s] == t[w..][s];
    w + s
  }

  function TrimStart(t: Text): Text { t[Span(t, true)..] }

  function Flatten(ts: seq<Text>): Text { if ts == [] then [] else Flatten(ts[..|ts| - 1]) + ts[|ts| - 1] }

  /** The code units that are not white space, in order. */
  function Ink(t: Text): Text
  {
    if t == [] then [] else Ink(t[..|t| - 1]) + if IsSpace(t[|t| - 1]) then [] else [t[|t| - 1]]
  }

  /** `t[i..j]` is a word: a maximal run without white space. */
  ghost predicate IsWord(t: Text, i: nat, j: nat)
  {
    && i < j <= |t| && (forall k :: i <= k < j ==> !IsSpace(t[k]))
    && (i == 0 || IsSpace(t[i - 1])) && (j == |t| || IsSpace(t[j]))
  }

  lemma {:induction false} InkConcat(a: Text, b: Text)
    ensures Ink(a + b) == Ink(a) + Ink(b)
  {
    if b == [] {
      assert a + b == a;
    } else {
      var n := |b| - 1;
      InkConcat(a, b[..n]);
      assert (a + b)[..|a + b| - 1] == a + b[..n];
    }
  }

  lemma {:induction false} InkOfSpace(t: Text)
    requires forall i :: 0 <= i < |t| ==> IsSpace(t[i])
    ensures Ink(t) == []
  {
    if t != [] { InkOfSpace(t[..|t| - 1]); }
  }

  lemma InkOfTrim(t: Text)
    ensures Ink(TrimStart(t)) == Ink(t)
  {
    var n := Span(t, true);
    InkOfSpace(t[..n]);
    InkConcat(t[..n], t[n..]);
    assert t == t[..n] + t[n..];
  }

  lemma {:induction false} FlattenConcat(a: seq<Text>, b: seq<Text>)
    ensures Flatten(a + b) == Flatten(a) + Flatten(b)
  {
    if b == [] {
      assert a + b == a;
    } else {
      var n := |b| - 1;
      FlattenConcat(a, b[..n]);
      assert (a + b)[..|a + b| - 1] == a + b[..n];
      Associate(Flatten(a), Flatten(b[..n]), b[n]);
    }
  }

  lemma FlattenSnoc(rows: seq<Text>, row: Text)
    ensures Flatten(rows + [row]) == Flatten(rows) + row
  {
    assert (rows + [row])[..|rows|] == rows;
  }

  lemma FlattenTwo(a: Text, b: Text, rest: seq<Text>)
    ensures Flatten([a, b] + rest) == a + b + Flatten(rest)
  {
    FlattenConcat([a, b], rest);
    assert [a, b][..1] == [a] && [a][..0] == [];
    assert Flatten([a]) == Flatten([]) + a == a;
    assert Flatten([a, b]) == Flatten([a]) + b;
  }

  lemma {:induction false} SplitKeepsAll(t: Text)
    ensures Flatten(Split(t)) == t
    decreases |t|
  {
    var w := Span(t, false);
    if w == |t| {
      FlattenSnoc([], t);
      assert [] + [t] == [t];
    } else {
      var e := GapEnd(t);
      SplitKeepsAll(t[e..]);
      FlattenTwo(t[..w], t[w..e], Split(t[e..]));
      Cut(t, w, e);
    }
  }

  /** Words and gaps take turns: an odd number of tokens, at even places without white space and empty at most at the
      ends, at odd places white space only and never empty. */
  ghost predicate TakeTurns(tokens: seq<Text>)
  {
    && |tokens| % 2 == 1
    && (forall k :: 0 <= k < |tokens| && k % 2 == 0 ==> NoSpace(tokens[k]) && (0 < k < |tokens| - 1 ==> tokens[k] != []))
    && (forall k :: 0 <= k < |tokens| && k % 2 == 1 ==> tokens[k] != [] && AllSpace(tokens[k]))
  }

  ghost predicate AllSpace(t: Text) { forall i :: 0 <= i < |t| ==> IsSpace(t[i]) }

  lemma TwoMore(word: Text, gap: Text, rest: seq<Text>)
    requires TakeTurns(rest) && NoSpace(word) && gap != [] && AllSpace(gap) && (|rest| > 1 ==> rest[0] != [])
    ensures TakeTurns([word, gap] + rest)
  {
    var tokens := [word, gap] + rest;
    forall k | 0 <= k < |tokens|
      ensures k % 2 == 0 ==> NoSpace(tokens[k]) && (0 < k < |tokens| - 1 ==> tokens[k] != [])
      ensures k % 2 == 1 ==> tokens[k] != [] && AllSpace(tokens[k])
    {
      if k >= 2 { assert tokens[k] == rest[k - 2]; }
    }
  }

  lemma {:induction false} TokensTakeTurns(t: Text)
    ensures TakeTurns(Split(t))
    decreases |t|
  {
    var w := Span(t, false);
    if w < |t| {
      var e := GapEnd(t);
      TokensTakeTurns(t[e..]);
      FirstOfRest(t[e..]);
      TwoMore(t[..w], t[w..e], Split(t[e..]));
    }
  }

  lemma FirstOfRest(t: Text)
    requires t != [] ==> !IsSpace(t[0])
    ensures |Split(t)| > 1 ==> Split(t)[0] != []
  {
    if t != [] { assert Span(t, false) > 0; }
  }

  /** Trimming takes white space off the front and all of it. */
  lemma TrimsFront(t: Text)
    ensures var n := |t| - |TrimStart(t)|;
      n >= 0 && TrimStart(t) == t[n..] && (forall i :: 0 <= i < n ==> IsSpace(t[i])) && (n < |t| ==> !IsSpace(t[n]))
  {
  }

  /** The words of `t` after its first one lie beyond the first gap. */
  lemma LaterWord(t: Text, i: nat, j: nat)
    requires IsWord(t, i, j) && i > 0
    ensures Span(t, false) < |t| && i >= GapEnd(t)
  {
    assert IsSpace(t[i - 1]) && !IsSpace(t[i]);
  }

  lemma WordInRest(t: Text, e: nat, i: nat, j: nat)
    requires IsWord(t, i, j) && e <= i
    ensures IsWord(t[e..], i - e, j - e) && t[e..][i - e..j - e] == t[i..j]
  {
    var rest := t[e..];
    forall k | i - e <= k < j - e ensures !IsSpace(rest[k]) {
      assert rest[k] == t[k + e];
    }
  }

  lemma SplitRest(t: Text, k: nat)
    requires Span(t, false) < |t| && k < |Split(t[GapEnd(t)..])|
    ensures k + 2 < |Split(t)| && Split(t)[k + 2] == Split(t[GapEnd(t)..])[k]
  {
  }

  lemma FirstWord(t: Text, j: nat)
    requires IsWord(t, 0, j)
    ensures Split(t)[0] == t[0..j]
  {
    assert j == Span(t, false);
  }

  /** A word of the text is one of its tokens, whole. */
  lemma {:induction false} WordIsToken(t: Text, i: nat, j: nat, word: Text) returns (k: nat)
    requires IsWord(t, i, j) && word == t[i..j]
    ensures k < |Split(t)| && Split(t)[k] == word
    decreases |t|
  {
    if i == 0 {
      k := 0;
      FirstWord(t, j);
    } else {
      LaterWord(t, i, j);
      var e := GapEnd(t);
      WordInRest(t, e, i, j);
      k := WordIsToken(t[e..], i - e, j - e, word);
      SplitRest(t, k);
      k := k + 2;
    }
  }

  // ----- Rows -----

  ghost predicate Within(row: Text, word: Text)
  {
    exists o: nat :: StandsAt(row, o, word)
  }

  ghost predicate StandsAt(row: Text, o: nat, word: Text) { o + |word| <= |row| && row[o..o + |word|] == word }

  ghost predicate InSomeRow(rows: seq<Text>, word: Text)
  {
    exists r :: 0 <= r < |rows| && Within(rows[r], word)
  }

  ghost predicate Fit(rows: seq<Text>, width: nat) { forall r :: 0 <= r < |rows| ==> 0 < |rows[r]| <= width }

  lemma WithinLonger(row: Text, tail: Text, word: Text)
    requires Within(row, word)
    ensures Within(row + tail, word)
  {
    var o: nat :| StandsAt(row, o, word);
    assert StandsAt(row + tail, o, word);
  }

  lemma WithinSelf(front: Text, word: Text)
    ensures Within(front + word, word)
  {
    assert StandsAt(front + word, |front|, word);
  }

  lemma InMoreRows(rows: seq<Text>, row: Text, word: Text)
    requires InSomeRow(rows, word)
    ensures InSomeRow(rows + [row], word)
  {
    var r :| 0 <= r < |rows| && Within(rows[r], word);
    assert (rows + [row])[r] == rows[r];
  }

  // ----- The wrapper -----

  /** Placing words: the rows so far and the row being filled hold every short word of the tokens so far. */
  ghost predicate Placed(rows: seq<Text>, cur: Text, tokens: seq<Text>, width: nat)
  {
    forall k :: 0 <= k < |tokens| && 0 < |tokens[k]| <= width && NoSpace(tokens[k]) ==> InSomeRow(rows, tokens[k]) || Within(cur, tokens[k])
  }

  ghost predicate NoSpace(t: Text) { forall i :: 0 <= i < |t| ==> !IsSpace(t[i]) }

  lemma PlacedPushed(rows: seq<Text>, cur: Text, tokens: seq<Text>, width: nat)
    requires Placed(rows, cur, tokens, width)
    ensures Placed(if cur == [] then rows else rows + [cur], [], tokens, width)
  {
    var rows' := if cur == [] then rows else rows + [cur];
    forall k | 0 <= k < |tokens| && 0 < |tokens[k]| <= width && NoSpace(tokens[k]) ensures InSomeRow(rows', tokens[k]) {
      if InSomeRow(rows, tokens[k]) {
        if cur != [] { InMoreRows(rows, cur, tokens[k]); }
      } else {
        assert rows'[|rows|] == cur;
      }
    }
  }

  lemma PlacedMoreRows(rows: seq<Text>, more: seq<Text>, cur: Text, tokens: seq<Text>, width: nat)
    requires Placed(rows, [], tokens, width)
    ensures Placed(rows + more, cur, tokens, width)
  {
    forall k | 0 <= k < |tokens| && 0 < |tokens[k]| <= width && NoSpace(tokens[k]) ensures InSomeRow(rows + more, tokens[k]) {
      var r :| 0 <= r < |rows| && Within(rows[r], tokens[k]);
      assert (rows + more)[r] == rows[r];
    }
  }

  lemma PlacedNext(rows: seq<Text>, cur: Text, tokens: seq<Text>, token: Text, width: nat)
    requires Placed(rows, cur, tokens, width)
    ensures Placed(rows, cur + token, tokens + [token], width)
  {
    forall k | 0 <= k < |tokens + [token]| && 0 < |(tokens + [token])[k]| <= width && NoSpace((tokens + [token])[k])
      ensures InSomeRow(rows, (tokens + [token])[k]) || Within(cur + token, (tokens + [token])[k])
    {
      if k < |tokens| {
        if Within(cur, tokens[k]) { WithinLonger(cur, token, tokens[k]); }
      } else {
        WithinSelf(cur, token);
      }
    }
  }

  /** Full rows of a token, and what is left. */
  function Chunks(t: Text, width: nat): (r: (seq<Text>, Text))
    requires width >= 1
    decreases |t|
  {
    if |t| < width then ([], t) else
    var (rows, rest) := Chunks(t[width..], width);
    ([t[..width]] + rows, rest)
  }

  lemma NextChunk(t: Text, i: nat, width: nat)
    requires width >= 1 && i <= |t|
    ensures var (rows, rest) := Chunks(t[i..], width);
      if i + width > |t| then (rows, rest) == ([], t[i..])
      else rows == [t[i..i + width]] + Chunks(t[i + width..], width).0 && rest == Chunks(t[i + width..], width).1
  {
    if i + width <= |t| {
      assert t[i..][..width] == t[i..i + width] && t[i..][width..] == t[i + width..];
    }
  }

  /** Cuts an over-long token into full rows and a shorter rest. */
  method HardBreak(token: Text, width: nat) returns (rows: seq<Text>, rest: Text)
    requires 1 <= width < |token|
    ensures Fit(rows, width) && |rest| < width && rows != []
    ensures Flatten(rows) + rest == token
    ensures (rows, rest) == Chunks(token, width)
  {
    rows, rest := [], [];
    var i := 0;
    assert token[0..] == token && [] + Chunks(token, width).0 == Chunks(token, width).0;
    while i < |token|
      invariant i <= |token| ==> rest == [] && Chunks(token, width) == (rows + Chunks(token[i..], width).0, Chunks(token[i..], width).1)
      invariant i > |token| ==> Chunks(token, width) == (rows, rest)
      invariant 0 <= i && (i == 0 <==> rows == [])
      invariant Fit(rows, width) && |rest| < width && (i < |token| ==> rest == [])
      invariant Flatten(rows) + rest == (if i < |token| then token[..i] else token)
      decreases |token| - i
    {
      var piece := Slice(token, i, i + width);
      SliceNext(token, i, width);
      NextChunk(token, i, width);
      assert rows + [] == rows;
      assert Flatten(rows) + [] == Flatten(rows);
      if |piece| == width {
        OneRowMore(rows, piece, width);
        Associate(rows, [piece], Chunks(token[i + width..], width).0);
        rows := rows + [piece];
      } else {
        rest := piece;
      }
      i := i + width;
    }
  }

  lemma OneRowMore(rows: seq<Text>, piece: Text, width: nat)
    requires Fit(rows, width) && 0 < |piece| <= width
    ensures Fit(rows + [piece], width) && Flatten(rows + [piece]) + [] == Flatten(rows) + piece
  {
    FlattenSnoc(rows, piece);
  }

  /** A slice that stops at the end of the text. */
  function Slice(t: Text, i: nat, j: nat): Text
    requires i <= |t| && i <= j
  {
    if j <= |t| then t[i..j] else t[i..]
  }

  lemma SliceNext(t: Text, i: nat, width: nat)
    requires i < |t|
    ensures t[..i] + Slice(t, i, i + width) == if i + width < |t| then t[..i + width] else t
  {
  }

  /** What the wrapper keeps after each token. */
  ghost predicate Good(rows: seq<Text>, cur: Text, tokens: seq<Text>, width: nat)
  {
    && Fit(rows, width) && |cur| <= width
    && Ink(Flatten(rows) + cur) == Ink(Flatten(tokens))
    && (Flatten(tokens) != [] ==> rows != [] || cur != [])
    && Placed(rows, cur, tokens, width)
  }

  lemma GoodAppended(rows: seq<Text>, cur: Text, tokens: seq<Text>, token: Text, width: nat)
    requires Good(rows, cur, tokens, width) && |cur| + |token| <= width
    ensures Good(rows, cur + token, tokens + [token], width)
  {
    PlacedNext(rows, cur, tokens, token, width);
    FlattenSnoc(tokens, token);
    InkConcat(Flatten(tokens), token);
    InkConcat(Flatten(rows) + cur, token);
    Associate(Flatten(rows), cur, token);
  }

  /** The row being filled is pushed unless it is empty. */
  function Push(rows: seq<Text>, cur: Text): seq<Text> { if |cur| > 0 then rows + [cur] else rows }

  lemma GoodPushed(rows: seq<Text>, cur: Text, tokens: seq<Text>, width: nat)
    requires Good(rows, cur, tokens, width)
    ensures Good(Push(rows, cur), [], tokens, width) && Flatten(Push(rows, cur)) + [] == Flatten(rows) + cur
  {
    PlacedPushed(rows, cur, tokens, width);
    FlattenSnoc(rows, cur);
    assert Flatten(rows) + cur == (Flatten(rows) + cur) + [];
  }

  lemma FitMore(rows: seq<Text>, more: seq<Text>, width: nat)
    requires Fit(rows, width) && Fit(more, width)
    ensures Fit(rows + more, width)
  {
  }

  lemma InkBroken(rows: seq<Text>, tokens: seq<Text>, token: Text, more: seq<Text>, rest: Text)
    requires Ink(Flatten(rows) + []) == Ink(Flatten(tokens)) && Flatten(more) + rest == token
    ensures Ink(Flatten(rows + more) + rest) == Ink(Flatten(tokens + [token]))
  {
    FlattenConcat(rows, more);
    FlattenSnoc(tokens, token);
    InkConcat(Flatten(tokens), token);
    InkConcat(Flatten(rows), token);
    InkConcat(Flatten(rows), []);
    Associate(Flatten(rows), Flatten(more), rest);
  }

  /** A word too long to count changes no placement. */
  lemma PlacedLong(rows: seq<Text>, cur: Text, tokens: seq<Text>, token: Text, width: nat)
    requires Placed(rows, cur, tokens, width) && |token| > width
    ensures Placed(rows, cur, tokens + [token], width)
  {
    forall k | 0 <= k < |tokens + [token]| && 0 < |(tokens + [token])[k]| <= width && NoSpace((tokens + [token])[k])
      ensures InSomeRow(rows, (tokens + [token])[k]) || Within(cur, (tokens + [token])[k])
    {
      assert k < |tokens| && (tokens + [token])[k] == tokens[k];
    }
  }

  lemma GoodBroken(rows: seq<Text>, tokens: seq<Text>, token: Text, more: seq<Text>, rest: Text, width: nat)
    requires Good(rows, [], tokens, width) && |token| > width
    requires Fit(more, width) && more != [] && |rest| <= width && Flatten(more) + rest == token
    ensures Good(rows + more, rest, tokens + [token], width)
  {
    PlacedMoreRows(rows, more, rest, tokens, width);
    PlacedLong(rows + more, rest, tokens, token, width);
    FitMore(rows, more, width);
    InkBroken(rows, tokens, token, more, rest);
  }

  lemma TrimmedInk(rows: seq<Text>, tokens: seq<Text>, token: Text)
    requires Ink(Flatten(rows) + []) == Ink(Flatten(tokens))
    ensures Ink(Flatten(rows) + TrimStart(token)) == Ink(Flatten(tokens + [token]))
  {
    FlattenSnoc(tokens, token);
    InkOfTrim(token);
    InkConcat(Flatten(tokens), token);
    InkConcat(Flatten(rows), TrimStart(token));
    assert Flatten(rows) + [] == Flatten(rows);
  }

  lemma TrimmedPlaced(rows: seq<Text>, tokens: seq<Text>, token: Text, width: nat)
    requires Placed(rows, [], tokens, width) && |token| <= width
    ensures Placed(rows, TrimStart(token), tokens + [token], width)
  {
    PlacedNext(rows, [], tokens, token, width);
    assert [] + token == token;
    if NoSpace(token) { assert TrimStart(token) == token; }
  }

  lemma GoodTrimmed(rows: seq<Text>, tokens: seq<Text>, token: Text, width: nat)
    requires Good(rows, [], tokens, width) && |token| <= width && rows != []
    ensures Good(rows, TrimStart(token), tokens + [token], width)
  {
    TrimmedPlaced(rows, tokens, token, width);
    TrimmedInk(rows, tokens, token);
  }

  /** Where a token goes: onto the row being filled if it fits there; else that row is done, and a token longer than a
      row is cut, one that is not starts the next row without white space in front. */
  function PlaceOne(rows: seq<Text>, cur: Text, tok: Text, width: nat): (seq<Text>, Text)
    requires width >= 1
  {
    if |cur| + |tok| <= width then (rows, cur + tok)
    else if |tok| > width then (Push(rows, cur) + Chunks(tok, width).0, Chunks(tok, width).1)
    else (Push(rows, cur), TrimStart(tok))
  }

  function PlaceAll(tokens: seq<Text>, width: nat): (seq<Text>, Text)
    requires width >= 1
  {
    if tokens == [] then ([], []) else
    var (rows, cur) := PlaceAll(tokens[..|tokens| - 1], width);
    PlaceOne(rows, cur, tokens[|tokens| - 1], width)
  }

  function Wrapped(text: Text, width: nat): seq<Text>
    requires width >= 1
  {
    if text == [] then [text] else Push(PlaceAll(Split(text), width).0, PlaceAll(Split(text), width).1)
  }

  lemma PlaceAllSnoc(tokens: seq<Text>, tok: Text, width: nat)
    requires width >= 1
    ensures var (rows, cur) := PlaceAll(tokens, width); PlaceAll(tokens + [tok], width) == PlaceOne(rows, cur, tok, width)
  {
    assert (tokens + [tok])[..|tokens|] == tokens;
  }

  lemma {:induction false} PlacesWhole(tokens: seq<Text>, width: nat)
    requires width >= 1 && |Flatten(tokens)| <= width
    ensures PlaceAll(tokens, width) == ([], Flatten(tokens))
  {
    if tokens != [] { PlacesWhole(tokens[..|tokens| - 1], width); }
  }

  /** A text that fits one row stands in one row as it is. */
  lemma ShortStays(text: Text, width: nat)
    requires width >= 1 && |text| <= width
    ensures Wrapped(text, width) == [text]
  {
    SplitKeepsAll(text);
    PlacesWhole(Split(text), width);
  }

  /** Greedy: a token opens a new row only if the row before could not take it. */
  lemma OpensRowIff(rows: seq<Text>, cur: Text, tok: Text, width: nat)
    requires width >= 1 && cur != [] && tok != []
    ensures PlaceOne(rows, cur, tok, width).0 == rows <==> |cur| + |tok| <= width
    ensures |cur| + |tok| <= width ==> PlaceOne(rows, cur, tok, width).1 == cur + tok
    ensures |cur| + |tok| > width ==> PlaceOne(rows, cur, tok, width).0[..|rows| + 1] == rows + [cur]
  {
  }

  /** Places one token. */
  method Place(rows: seq<Text>, cur: Text, tok: Text, width: nat, ghost tokens: seq<Text>) returns (rows': seq<Text>, cur': Text)
    requires width >= 1 && Good(rows, cur, tokens, width)
    ensures Good(rows', cur', tokens + [tok], width)
    ensures (rows', cur') == PlaceOne(rows, cur, tok, width)
  {
    if |cur| + |tok| <= width {
      GoodAppended(rows, cur, tokens, tok, width);
      return rows, cur + tok;
    }
    GoodPushed(rows, cur, tokens, width);
    rows' := Push(rows, cur);
    if |tok| > width {
      var more, rest := HardBreak(tok, width);
      GoodBroken(rows', tokens, tok, more, rest, width);
      rows', cur' := rows' + more, rest;
    } else {
      GoodTrimmed(rows', tokens, tok, width);
      cur' := TrimStart(tok);
    }
  }

  /** One row per line of at most `width` code units; nothing but white space at a break is lost, and only
      words longer than a row are ever broken. */
  method WrapLine(text: Text, width: nat) returns (rows: seq<Text>)
    requires width >= 1
    ensures rows == Wrapped(text, width)
    ensures text == [] ==> rows == [[]]
    ensures text != [] ==> rows != [] && Fit(rows, width)
    ensures Ink(Flatten(rows)) == Ink(text)
    ensures forall i: nat, j: nat :: IsWord(text, i, j) && j - i <= width ==> InSomeRow(rows, text[i..j])
  {
    if |text| == 0 {
      rows := [text];
      EmptyLine(text, width);
      return;
    }
    var tokens := Split(text);
    var cur: Text;
    rows, cur := FillRows(tokens, width);
    GoodPushed(rows, cur, tokens, width);
    rows := Push(rows, cur);
    SplitKeepsAll(text);
    Finished(text, rows, width);
  }

  method FillRows(tokens: seq<Text>, width: nat) returns (rows: seq<Text>, cur: Text)
    requires width >= 1
    ensures Good(rows, cur, tokens, width) && (rows, cur) == PlaceAll(tokens, width)
  {
    rows, cur := [], [];
    for n := 0 to |tokens|
      invariant Good(rows, cur, tokens[..n], width) && (rows, cur) == PlaceAll(tokens[..n], width)
    {
      assert tokens[..n + 1] == tokens[..n] + [tokens[n]];
      PlaceAllSnoc(tokens[..n], tokens[n], width);
      rows, cur := Place(rows, cur, tokens[n], width, tokens[..n]);
    }
    assert tokens[..|tokens|] == tokens;
  }

  lemma EmptyLine(text: Text, width: nat)
    requires text == []
    ensures Ink(Flatten([text])) == Ink(text)
    ensures forall i: nat, j: nat :: IsWord(text, i, j) && j - i <= width ==> InSomeRow([text], text[i..j])
  {
    FlattenSnoc([], text);
    assert [] + [text] == [text];
  }

  lemma Finished(text: Text, rows: seq<Text>, width: nat)
    requires text != [] && Good(rows, [], Split(text), width) && Flatten(Split(text)) == text
    ensures rows != [] && Fit(rows, width) && Ink(Flatten(rows)) == Ink(text)
    ensures forall i: nat, j: nat :: IsWord(text, i, j) && j - i <= width ==> InSomeRow(rows, text[i..j])
  {
    assert Flatten(rows) + [] == Flatten(rows);
    WordsAreIn(text, rows, width);
  }

  lemma WordsAreIn(text: Text, rows: seq<Text>, width: nat)
    requires Placed(rows, [], Split(text), width)
    ensures forall i: nat, j: nat :: IsWord(text, i, j) && j - i <= width ==> InSomeRow(rows, text[i..j])
  {
    forall i: nat, j: nat | IsWord(text, i, j) && j - i <= width ensures InSomeRow(rows, text[i..j]) {
      var k := WordIsToken(text, i, j, text[i..j]);
      assert NoSpace(Split(text)[k]);
    }
  }

  /** Why the width must be at least 1: the hard-break loop, which steps by the width from 0 until it passes
      the token, ends exactly if the width is positive. */
  lemma HardBreakEnds(length: nat, width: int)
    requires length > 0
    ensures (exists n: nat :: n * width >= length) <==> width >= 1
  {
    if width >= 1 {
      assert length * width >= length;
    } else {
      forall n: nat ensures n * width < length { assert n * width <= 0; }
    }
  }
}
