/** The self-heal of policies.json: every install-directory placeholder replaced by the real directory. */
module SelfHeal {
  import opened Bytes

  const PLACEHOLDER: string := "@@INSTALL_DIR@@"

  /** Non-overlapping occurrences from the left, as the runtime replaces them. */
  function ReplaceAll(s: string, p: string, with: string): string
    requires p != ""
  {
    if |s| < |p| then s
    else if p <= s then with + ReplaceAll(s[|p|..], p, with)
    else [s[0]] + ReplaceAll(s[1..], p, with)
  }

  ghost predicate At(s: string, p: string, i: nat) { i + |p| <= |s| && s[i..i + |p|] == p }

  ghost predicate Contains(s: string, p: string) { exists i: nat :: At(s, p, i) }

  function Flip(s: string): string { if s == "" then "" else [if s[0] == '\\' then '/' else s[0]] + Flip(s[1..]) }

  function ToFileUriPath(path: string, windows: bool): (r: string)
    ensures !windows ==> r == path
    ensures windows ==> "/" <= r && (r == Flip(path) || (r == "/" + Flip(path) && !("/" <= Flip(path))))
  {
    if !windows then path else
    var flipped := Flip(path);
    if "/" <= flipped then flipped else "/" + flipped
  }

  datatype File = Missing | Unreadable | Present(content: string)

  /** The file after a launch. */
  ghost function Policies(f: File, root: string, windows: bool): File
  {
    match f
    case Missing => Missing
    case Unreadable => Unreadable
    case Present(content) =>
      if !Contains(content, PLACEHOLDER) then f
      else Present(ReplaceAll(content, PLACEHOLDER, ToFileUriPath(root, windows)))
  }

  // ----- Text outside the occurrences -----

  function Segments(s: string, p: string): (r: seq<string>)
    requires p != ""
    ensures r != []
  {
    if |s| < |p| then [s]
    else if p <= s then [""] + Segments(s[|p|..], p)
    else var rest := Segments(s[1..], p); [[s[0]] + rest[0]] + rest[1..]
  }

  function JoinWith(segments: seq<string>, glue: string): string
    requires segments != []
  {
    if |segments| == 1 then segments[0] else segments[0] + glue + JoinWith(segments[1..], glue)
  }

  /** The same segments glued by the placeholder are the old content and glued by the directory the new. */
  lemma {:induction false} OnlyOccurrencesChange(s: string, p: string, with: string)
    requires p != ""
    ensures ReplaceAll(s, p, with) == JoinWith(Segments(s, p), with)
    ensures s == JoinWith(Segments(s, p), p)
  {
    if |s| >= |p| {
      if p <= s {
        OnlyOccurrencesChange(s[|p|..], p, with);
        TakeDrop(s, |p|);
        assert s[..|p|] == p;
        FirstEmpty(Segments(s[|p|..], p), p);
        FirstEmpty(Segments(s[|p|..], p), with);
      } else {
        OnlyOccurrencesChange(s[1..], p, with);
        var rest := Segments(s[1..], p);
        FirstLonger(s[0], rest, p);
        FirstLonger(s[0], rest, with);
        assert s == [s[0]] + s[1..];
      }
    }
  }

  lemma FirstEmpty(rest: seq<string>, glue: string)
    requires rest != []
    ensures JoinWith([""] + rest, glue) == glue + JoinWith(rest, glue)
  {
    assert ([""] + rest)[1..] == rest && "" + glue == glue;
  }

  lemma FirstLonger(c: char, rest: seq<string>, glue: string)
    requires rest != []
    ensures JoinWith([[c] + rest[0]] + rest[1..], glue) == [c] + JoinWith(rest, glue)
  {
    if |rest| > 1 {
      assert ([[c] + rest[0]] + rest[1..])[1..] == rest[1..];
      assert ([c] + rest[0]) + glue + JoinWith(rest[1..], glue) == [c] + (rest[0] + glue + JoinWith(rest[1..], glue));
    }
  }

  /** The kept text holds no occurrence: every one that can be seen before healing is replaced. */
  lemma {:induction false} SegmentsAreFree(s: string, p: string, k: nat)
    requires p != "" && k < |Segments(s, p)|
    ensures !Contains(Segments(s, p)[k], p)
    ensures Segments(s, p)[0] <= s
  {
    if |s| >= |p| {
      if p <= s {
        if k > 0 { SegmentsAreFree(s[|p|..], p, k - 1); }
      } else {
        var rest := Segments(s[1..], p);
        SegmentsAreFree(s[1..], p, k);
        var first := [s[0]] + rest[0];
        assert s == [s[0]] + s[1..] && first <= s;
        if k == 0 {
          forall i: nat ensures !At(first, p, i) {
            if At(first, p, i) {
              if i == 0 { PrefixOfPrefix(p, first, s); } else { ContainsLater([s[0]], rest[0], p, i); }
            }
          }
        }
      }
    }
  }

  lemma PrefixOfPrefix(p: string, first: string, s: string)
    requires At(first, p, 0) && first <= s
    ensures p <= s
  {
    assert first[0..|p|] == s[..|p|];
  }

  // ----- No placeholder is left, even across seams -----

  /** Some end of `s` is a beginning, not the whole, of `p`. */
  ghost predicate EndsLikeStart(s: string, p: string) { exists k :: 0 < k < |p| && k <= |s| && s[|s| - k..] == p[..k] }

  /** Whether a directory can be put in for the placeholder without ever making a new one. */
  ghost predicate Settles(with: string) { !Contains(with, PLACEHOLDER) && !EndsLikeStart(with, PLACEHOLDER) }

  ghost predicate Heals(s: string, with: string) { !Contains(ReplaceAll(s, PLACEHOLDER, with), PLACEHOLDER) }

  lemma ContainsLater(a: string, b: string, p: string, i: nat)
    requires At(a + b, p, i) && i >= |a|
    ensures At(b, p, i - |a|)
  {
    assert (a + b)[i..i + |p|] == b[i - |a|..i - |a| + |p|];
  }

  lemma {:induction false} PrefixWasThere(q: string, s: string, p: string, with: string)
    requires p != "" && with != "" && with[0] !in q && q <= ReplaceAll(s, p, with)
    ensures q <= s
  {
    if q != "" {
      var r := ReplaceAll(s, p, with);
      assert q[0] == r[0] && q[0] in q;
      if |s| >= |p| && !(p <= s) {
        assert q[1..] <= r[1..] && r[1..] == ReplaceAll(s[1..], p, with);
        assert forall c :: c in q[1..] ==> c in q;
        PrefixWasThere(q[1..], s[1..], p, with);
        assert s == [s[0]] + s[1..] && q == [q[0]] + q[1..];
      }
    }
  }

  lemma {:induction false} NoneLeft(s: string, with: string)
    requires "/" <= with && Settles(with)
    ensures !Contains(ReplaceAll(s, PLACEHOLDER, with), PLACEHOLDER)
  {
    var p, r := PLACEHOLDER, ReplaceAll(s, PLACEHOLDER, with);
    assert with[0] !in p;
    if |s| >= |p| {
      if p <= s {
        NoneLeft(s[|p|..], with);
        forall i: nat ensures !At(r, p, i) { AfterReplacement(with, ReplaceAll(s[|p|..], p, with), i); }
      } else {
        NoneLeft(s[1..], with);
        forall i: nat ensures !At(r, p, i) { AfterKept(s, with, i); }
      }
    }
  }

  /** Where an occurrence in `a + b` can lie. */
  lemma AcrossSeam(a: string, b: string, p: string, i: nat)
    requires p != "" && At(a + b, p, i)
    ensures (i >= |a| && At(b, p, i - |a|)) || At(a, p, i) || EndsLikeStart(a, p)
  {
    var found := (a + b)[i..i + |p|];
    if i >= |a| {
      ContainsLater(a, b, p, i);
    } else if i + |p| <= |a| {
      assert a[i..i + |p|] == found;
    } else {
      var k := |a| - i;
      assert a[|a| - k..] == found[..k];
    }
  }

  lemma AfterReplacement(with: string, rest: string, i: nat)
    requires Settles(with) && !Contains(rest, PLACEHOLDER)
    ensures !At(with + rest, PLACEHOLDER, i)
  {
    if At(with + rest, PLACEHOLDER, i) {
      AcrossSeam(with, rest, PLACEHOLDER, i);
    }
  }

  lemma AfterKept(s: string, with: string, i: nat)
    requires "/" <= with && |s| >= |PLACEHOLDER| && !(PLACEHOLDER <= s)
    requires !Contains(ReplaceAll(s[1..], PLACEHOLDER, with), PLACEHOLDER)
    ensures !At(ReplaceAll(s, PLACEHOLDER, with), PLACEHOLDER, i)
  {
    var p, r := PLACEHOLDER, ReplaceAll(s, PLACEHOLDER, with);
    if At(r, p, i) {
      if i == 0 {
        assert p <= r;
        PrefixWasThere(p, s, p, with);
      } else {
        ContainsLater([s[0]], ReplaceAll(s[1..], p, with), p, i);
      }
    }
  }

  /** For a directory that starts with `/`: no content keeps or gets a placeholder, exactly if the directory
      neither holds one nor ends in a beginning of one. */
  lemma HealsEverythingIff(with: string)
    requires "/" <= with
    ensures (forall s :: Heals(s, with)) <==> Settles(with)
  {
    if Settles(with) {
      forall s ensures Heals(s, with) { NoneLeft(s, with); }
    } else {
      var s := Unhealed(with);
      assert !Heals(s, with);
    }
  }

  /** A content that such a directory does not heal. */
  lemma Unhealed(with: string) returns (s: string)
    requires !Settles(with)
    ensures Contains(ReplaceAll(s, PLACEHOLDER, with), PLACEHOLDER)
  {
    var p := PLACEHOLDER;
    if Contains(with, p) {
      s := p;
      assert s[|p|..] == "" && ReplaceAll(s, p, with) == with + "" == with;
    } else {
      var k :| 0 < k < |p| && k <= |with| && with[|with| - k..] == p[..k];
      s := p + p[k..];
      Completed(with, p, k);
    }
  }

  /** An unfinished placeholder at the end of the directory, and a content that finishes it. */
  lemma Completed(with: string, p: string, k: nat)
    requires 0 < k < |p| && k <= |with| && with[|with| - k..] == p[..k]
    ensures Contains(ReplaceAll(p + p[k..], p, with), p)
  {
    var front, tail := with[..|with| - k], p[k..];
    ReplacedOnce(p, tail, with);
    TakeDrop(with, |with| - k);
    TakeDrop(p, k);
    Associate(front, p[..k], tail);
    AtEnd(front, p);
  }

  lemma AtEnd(front: string, p: string)
    ensures At(front + p, p, |front|) && Contains(front + p, p)
  {
    assert (front + p)[|front|..|front| + |p|] == p;
    assert At(front + p, p, |front|);
  }

  lemma ReplacedOnce(p: string, tail: string, with: string)
    requires |tail| < |p|
    ensures ReplaceAll(p + tail, p, with) == with + tail
  {
    assert p <= p + tail && (p + tail)[|p|..] == tail;
  }

  /** A directory without `@` settles; so does every directory that neither ends in `@` nor holds the
      placeholder or an unfinished one. */
  lemma NoAtSettles(with: string)
    requires '@' !in with
    ensures Settles(with)
  {
    forall i: nat ensures !At(with, PLACEHOLDER, i) {
      if i < |with| { assert with[i] in with; }
    }
    forall k | 0 < k < |PLACEHOLDER| && k <= |with| ensures with[|with| - k..] != PLACEHOLDER[..k] {
      assert with[|with| - k..][0] in with && PLACEHOLDER[..k][0] == '@';
    }
  }

  lemma AtLater(s: string, p: string, i: nat)
    requires s != ""
    ensures At(s[1..], p, i) ==> At(s, p, i + 1)
  {
  }

  lemma {:induction false} NoneNoReplacement(s: string, p: string, with: string)
    requires p != "" && !Contains(s, p)
    ensures ReplaceAll(s, p, with) == s
  {
    if |s| >= |p| {
      assert !At(s, p, 0);
      forall i: nat ensures !At(s[1..], p, i) { AtLater(s, p, i); }
      NoneNoReplacement(s[1..], p, with);
      assert s == [s[0]] + s[1..];
    }
  }

  /** After a launch the file holds its old segments in their order, the directory's URI path between them; there is a
      file, and one that can be read, exactly if there was. */
  lemma HealedContent(f: File, root: string, windows: bool)
    ensures Policies(f, root, windows) == match f
      case Present(content) => Present(JoinWith(Segments(content, "@@INSTALL_DIR@@"), ToFileUriPath(root, windows)))
      case other => other
  {
    if f.Present? {
      var with := ToFileUriPath(root, windows);
      OnlyOccurrencesChange(f.content, PLACEHOLDER, with);
      if !Contains(f.content, PLACEHOLDER) { NoneNoReplacement(f.content, PLACEHOLDER, with); }
    }
  }

  /** Healing is done once: a second launch finds nothing to do. */
  lemma HealedOnce(f: File, root: string, windows: bool)
    requires var with := ToFileUriPath(root, windows); "/" <= with && Settles(with)
    ensures var g := Policies(f, root, windows); Policies(g, root, windows) == g && (g.Present? ==> !Contains(g.content, PLACEHOLDER))
    ensures Policies(f, root, windows).Present? <==> f.Present?
  {
    if f.Present? { NoneLeft(f.content, ToFileUriPath(root, windows)); }
  }

  /** On Windows the path comes out with forward slashes only and one of them in front. */
  lemma {:induction false} FlipsEverySlash(s: string)
    ensures |Flip(s)| == |s| && '\\' !in Flip(s)
    ensures forall i :: 0 <= i < |s| ==> Flip(s)[i] == if s[i] == '\\' then '/' else s[i]
  {
    if s != "" { FlipsEverySlash(s[1..]); }
  }
}
