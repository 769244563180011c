/** anon:// URLs: the resolver both browsers share, and the host the bridge routes by. */
module Url {
  import opened Bytes

  const ANON: string := "anon://"

  predicate IsAnon(s: string) { ANON <= s }

  /** First place of `c` in `s`, or -1. */
  function IndexOf(s: string, c: char): (i: int)
    ensures -1 <= i < |s|
    ensures i >= 0 ==> s[i] == c
    ensures forall k :: 0 <= k < (if i < 0 then |s| else i) ==> s[k] != c
  {
    if s == "" then -1
    else if s[0] == c then 0
    else var i := IndexOf(s[1..], c); if i < 0 then -1 else i + 1
  }

  /** Last place of `c` in `s`, or -1. */
  function LastIndexOf(s: string, c: char): (i: int)
    ensures -1 <= i < |s|
    ensures i >= 0 ==> s[i] == c
    ensures forall k :: i < k < |s| ==> s[k] != c
  {
    if s == "" then -1
    else if s[|s| - 1] == c then |s| - 1
    else LastIndexOf(s[..|s| - 1], c)
  }

  datatype Parts = Parts(host: string, path: string, base: string)

  /** Where the host ends: at the first slash or `?`. */
  function HostEnd(after: string): (n: nat)
    ensures n <= |after| && (n < |after| ==> after[n] in "/?")
  {
    var slash, query := IndexOf(after, '/'), IndexOf(after, '?');
    if slash >= 0 && (query < 0 || slash < query) then slash else if query >= 0 then query else |after|
  }

  /** From the first slash up to the first `?`. A `?` before the slash leaves an empty path, because the slice then
      ends before it starts. */
  function PathPart(after: string): (path: string)
    ensures path == "" || path[0] == '/'
  {
    var slash, query := IndexOf(after, '/'), IndexOf(after, '?');
    if slash < 0 then "/" else if query < 0 then after[slash..] else if slash <= query then after[slash..query] else ""
  }

  function BasePart(path: string): (base: string)
    requires path == "" || path[0] == '/'
    ensures base != "" && base[0] == '/'
  {
    var last := LastIndexOf(path, '/');
    if last < 0 then "/" else path[..last + 1]
  }

  /** Host, path and directory of an anon:// URL, as the resolver cuts it. */
  function Cut(current: string): (p: Parts)
    requires IsAnon(current)
    ensures p.base != "" && p.base[0] == '/'
    ensures p.path == "" || p.path[0] == '/'
    ensures var after := current[|ANON|..];
      p.host <= after && (p.host == after || after[|p.host|] in "/?")
  {
    var after := current[|ANON|..];
    Parts(after[..HostEnd(after)], PathPart(after), BasePart(PathPart(after)))
  }

  function ResolveUrl(current: Option<string>, target: string): string
  {
    if IsAnon(target) || current.None? || !IsAnon(current.value) then target
    else
      var p := Cut(current.value);
      if "/" <= target then ANON + p.host + target
      else if "?" <= target then ANON + p.host + p.path + target
      else ANON + p.host + p.base + target
  }

  /** The host part of an anon:// URL before lower-casing: up to the first `/`, `?` or `#`. */
  function HostSpan(rest: string): (n: nat)
    ensures n <= |rest|
    ensures forall k :: 0 <= k < n ==> rest[k] !in "/?#"
    ensures n < |rest| ==> rest[n] in "/?#"
  {
    if rest == "" || rest[0] in "/?#" then 0 else 1 + HostSpan(rest[1..])
  }

  /** Which host's connection a URL is fetched over; `lower` is the runtime's lower-casing. */
  function ExtractAnonHost(url: string, lower: string -> string): Option<string>
  {
    if !IsAnon(url) then None else
    var rest := url[|ANON|..];
    var host := lower(rest[..HostSpan(rest)]);
    if host == "" then None else Some(host)
  }

  lemma {:induction false} HostSpanOf(front: string, tail: string)
    requires tail != "" && tail[0] in "/?#"
    ensures HostSpan(front + tail) == HostSpan(front)
  {
    if front == "" {
      assert front + tail == tail;
    } else if front[0] !in "/?#" {
      assert (front + tail)[1..] == front[1..] + tail;
      HostSpanOf(front[1..], tail);
    }
  }

  /** Resolving a link never leaves the host of the page it stands on. */
  lemma ResolutionStaysOnHost(current: string, target: string, lower: string -> string)
    requires IsAnon(current) && !IsAnon(target)
    ensures ExtractAnonHost(ResolveUrl(Some(current), target), lower) == ExtractAnonHost(current, lower)
  {
    var tail := ResolvedTail(current, target);
    SameHost(Cut(current).host, tail, lower);
    OwnHost(current, lower);
  }

  /** A resolved link is the page's host and something that starts a path or a query. */
  lemma ResolvedTail(current: string, target: string) returns (tail: string)
    requires IsAnon(current) && !IsAnon(target)
    ensures tail != "" && tail[0] in "/?" && ResolveUrl(Some(current), target) == ANON + (Cut(current).host + tail)
  {
    var p := Cut(current);
    if "/" <= target {
      tail := target;
      Associate(ANON, p.host, target);
    } else if "?" <= target {
      tail := p.path + target;
      Associate(ANON + p.host, p.path, target);
      Associate(ANON, p.host, tail);
    } else {
      tail := p.base + target;
      Associate(ANON + p.host, p.base, target);
      Associate(ANON, p.host, tail);
    }
  }

  /** A page's host is what its own URL reads as. */
  lemma OwnHost(current: string, lower: string -> string)
    requires IsAnon(current)
    ensures var host := Cut(current).host;
      var h := lower(host[..HostSpan(host)]); ExtractAnonHost(current, lower) == if h == "" then None else Some(h)
  {
    var host, after := Cut(current).host, current[|ANON|..];
    TakeDrop(current, |ANON|);
    if host != after {
      TakeDrop(after, |host|);
      SameHost(host, after[|host|..], lower);
    }
  }

  /** What the host reads as does not depend on what follows it. */
  lemma SameHost(host: string, tail: string, lower: string -> string)
    requires tail != "" && tail[0] in "/?"
    ensures var h := lower(host[..HostSpan(host)]);
      ExtractAnonHost(ANON + (host + tail), lower) == if h == "" then None else Some(h)
  {
    HostSpanOf(host, tail);
    assert (ANON + (host + tail))[|ANON|..] == host + tail;
    assert (host + tail)[..HostSpan(host)] == host[..HostSpan(host)];
  }

  /** Resolution leaves a target alone exactly if the target is absolute or there is no anon:// page. */
  lemma ResolveFixes(current: Option<string>, target: string)
    ensures ResolveUrl(current, target) == target <==> IsAnon(target) || current.None? || !IsAnon(current.value)
    ensures current.Some? && IsAnon(current.value) ==> IsAnon(ResolveUrl(current, target))
  {
  }

  /** A resolved URL is absolute: resolving it again, from any page, changes nothing. */
  lemma ResolveOnce(current: string, target: string, other: Option<string>)
    requires IsAnon(current)
    ensures ResolveUrl(other, ResolveUrl(Some(current), target)) == ResolveUrl(Some(current), target)
  {
    ResolveFixes(Some(current), target);
  }

  // ----- What relative targets resolve to -----

  ghost predicate Free(s: string, of: string) { forall c :: c in of ==> c !in s }

  lemma {:induction false} IndexAfter(front: string, tail: string, c: char)
    requires c !in front
    ensures IndexOf(front + tail, c) == if IndexOf(tail, c) < 0 then -1 else |front| + IndexOf(tail, c)
  {
    if front == "" {
      assert front + tail == tail;
    } else {
      assert (front + tail)[0] == front[0] && (front + tail)[1..] == front[1..] + tail;
      IndexAfter(front[1..], tail, c);
    }
  }

  lemma {:induction false} LastIndexBefore(front: string, tail: string, c: char)
    requires c !in tail && front != "" && front[|front| - 1] == c
    ensures LastIndexOf(front + tail, c) == |front| - 1
  {
    if tail == "" {
      assert front + tail == front;
    } else {
      var s := front + tail;
      assert s[..|s| - 1] == front + tail[..|tail| - 1] && s[|s| - 1] == tail[|tail| - 1];
      LastIndexBefore(front, tail[..|tail| - 1], c);
    }
  }

  lemma NotIn(s: string, c: char)
    ensures IndexOf(s, c) < 0 <==> c !in s
  {
  }

  /** A query: nothing, or a `?` and whatever follows. */
  ghost predicate IsQuery(s: string) { s == "" || s[0] == '?' }

  /** A directory starts and ends with a slash. */
  ghost predicate IsDirectory(s: string) { s != "" && s[0] == '/' && s[|s| - 1] == '/' }

  lemma QueryIndex(front: string, query: string)
    requires '?' !in front && IsQuery(query)
    ensures IndexOf(front + query, '?') == if query == "" then -1 else |front|
  {
    IndexAfter(front, query, '?');
  }

  lemma Slices(host: string, path: string, query: string)
    ensures var after := host + (path + query);
      after[..|host|] == host && after[|host|..|host| + |path|] == path && (query == "" ==> after[|host|..] == path)
  {
    if query == "" { assert path + query == path; }
  }

  /** Where the resolver cuts, from where it finds the first slash and the first `?`. */
  lemma PartsAt(host: string, path: string, query: string)
    requires path != ""
    requires IndexOf(host + (path + query), '/') == |host|
    requires IndexOf(host + (path + query), '?') == if query == "" then -1 else |host| + |path|
    ensures var after := host + (path + query); after[..HostEnd(after)] == host && PathPart(after) == path
  {
    Slices(host, path, query);
  }

  lemma AnonRest(after: string)
    ensures IsAnon(ANON + after) && (ANON + after)[|ANON|..] == after
  {
  }

  lemma SlashAfterHost(host: string, path: string, query: string)
    requires Free(host, "/?") && path != "" && path[0] == '/' && '?' !in path && IsQuery(query)
    ensures IndexOf(host + (path + query), '/') == |host|
    ensures IndexOf(host + (path + query), '?') == if query == "" then -1 else |host| + |path|
  {
    IndexAfter(host, path + query, '/');
    IndexAfter(host, path + query, '?');
    QueryIndex(path, query);
    assert (path + query)[0] == '/';
  }

  lemma BaseOf(directory: string, segment: string)
    requires IsDirectory(directory) && '/' !in segment
    ensures LastIndexOf(directory + segment, '/') == |directory| - 1 && (directory + segment)[..|directory|] == directory
  {
    LastIndexBefore(directory, segment, '/');
  }

  /** The parts of a page's URL. */
  lemma CutPage(current: string, host: string, directory: string, segment: string, query: string)
    requires current == ANON + (host + (directory + segment + query))
    requires Free(host, "/?") && IsDirectory(directory) && '?' !in directory && Free(segment, "/?") && IsQuery(query)
    ensures IsAnon(current) && Cut(current) == Parts(host, directory + segment, directory)
  {
    AnonRest(host + (directory + segment + query));
    SlashAfterHost(host, directory + segment, query);
    PartsAt(host, directory + segment, query);
    BaseOf(directory, segment);
  }

  /** A target in full, starting with a slash, with a query, or anything else, on a page with a path. */
  lemma ResolvesOnPage(current: string, host: string, directory: string, segment: string, query: string, target: string)
    requires current == ANON + (host + (directory + segment + query))
    requires Free(host, "/?") && IsDirectory(directory) && '?' !in directory && Free(segment, "/?") && IsQuery(query)
    ensures ResolveUrl(Some(current), target) ==
      if ANON <= target then target
      else if "/" <= target then ANON + host + target
      else if "?" <= target then ANON + host + (directory + segment) + target
      else ANON + host + directory + target
  {
    CutPage(current, host, directory, segment, query);
  }

  /** On a host alone the path and the directory are the root. */
  lemma ResolvesOnHost(host: string, target: string)
    requires Free(host, "/?")
    ensures ResolveUrl(Some(ANON + host), target) ==
      if ANON <= target then target
      else if "/" <= target then ANON + host + target
      else ANON + host + "/" + target
  {
    AnonRest(host);
    NotIn(host, '/');
    NotIn(host, '?');
    assert HostEnd(host) == |host| && host[..|host|] == host && PathPart(host) == "/" && BasePart("/") == "/";
  }

  lemma QueryParts(host: string, query: string)
    requires Free(host, "/?") && query != "" && query[0] == '?'
    ensures var after := host + query;
      after[..HostEnd(after)] == host && PathPart(after) == (if '/' in query then "" else "/") && BasePart(PathPart(after)) == "/"
  {
    IndexAfter(host, query, '/');
    IndexAfter(host, query, '?');
    NotIn(query, '/');
    assert (host + query)[..|host|] == host && "/"[..1] == "/";
  }

  /** On a host with a query and no slash they are too; where a slash stands in the query, the path is empty. */
  lemma ResolvesOnQuery(host: string, query: string, target: string)
    requires Free(host, "/?") && query != "" && query[0] == '?'
    ensures ResolveUrl(Some(ANON + (host + query)), target) ==
      if ANON <= target then target
      else if "/" <= target then ANON + host + target
      else if "?" <= target then ANON + host + (if '/' in query then "" else "/") + target
      else ANON + host + "/" + target
  {
    AnonRest(host + query);
    QueryParts(host, query);
  }
}
