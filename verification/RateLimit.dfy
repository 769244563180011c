/** Forward-rate limiting: three sliding windows that must agree before a FORWARD request is served. The
    limiter's clock shows whole seconds; requests come at milliseconds. */
module RateLimit {

  const WINDOW: nat := 60           // seconds
  const SOURCE_LIMIT: nat := 32
  const DEST_LIMIT: nat := 64
  const GLOBAL_LIMIT: nat := 4096

  type Key = seq<nat>

  datatype Request = Request(source: Key, dest: Key, at: nat)   // milliseconds

  /** What the limiter's clock shows. */
  function Second(r: Request): nat { r.at / 1000 }

  datatype Scope = Source(key: Key) | Dest(key: Key) | Global

  predicate InScope(r: Request, s: Scope)
  {
    match s
    case Source(k) => r.source == k
    case Dest(k) => r.dest == k
    case Global => true
  }

  function Limit(s: Scope): nat
  {
    match s
    case Source(_) => SOURCE_LIMIT
    case Dest(_) => DEST_LIMIT
    case Global => GLOBAL_LIMIT
  }

  // ----- What a limiter must do -----

  /** Accepted requests of scope `s` less than a window old at second `now`. */
  function Load(accepted: seq<Request>, s: Scope, now: nat): nat
  {
    if accepted == [] then 0 else
    var n := |accepted| - 1;
    Load(accepted[..n], s, now) + if InScope(accepted[n], s) && now < Second(accepted[n]) + WINDOW then 1 else 0
  }

  predicate HasRoom(accepted: seq<Request>, s: Scope, now: nat) { Load(accepted, s, now) < Limit(s) }

  predicate Admits(accepted: seq<Request>, r: Request)
  {
    HasRoom(accepted, Source(r.source), Second(r)) && HasRoom(accepted, Dest(r.dest), Second(r)) && HasRoom(accepted, Global, Second(r))
  }

  /** What is accepted of a run of requests. */
  function Serve(accepted: seq<Request>, requests: seq<Request>): seq<Request>
    decreases |requests|
  {
    if requests == [] then accepted
    else Serve(if Admits(accepted, requests[0]) then accepted + [requests[0]] else accepted, requests[1..])
  }

  ghost predicate InOrder(requests: seq<Request>)
  {
    forall i, j :: 0 <= i < j < |requests| ==> Second(requests[i]) <= Second(requests[j])
  }

  /** Accepted requests of scope `s` in the 60 seconds of the limiter's clock that start at second `from`. */
  function InWindow(accepted: seq<Request>, s: Scope, from: nat): nat
  {
    if accepted == [] then 0 else
    var n := |accepted| - 1;
    InWindow(accepted[..n], s, from) + if InScope(accepted[n], s) && from <= Second(accepted[n]) < from + WINDOW then 1 else 0
  }

  lemma {:induction false} WindowWithinLoad(accepted: seq<Request>, s: Scope, from: nat, now: nat)
    requires now < from + WINDOW
    ensures InWindow(accepted, s, from) <= Load(accepted, s, now)
  {
    if accepted != [] { WindowWithinLoad(accepted[..|accepted| - 1], s, from, now); }
  }

  ghost predicate Bounded(accepted: seq<Request>)
  {
    forall s, from: nat :: InWindow(accepted, s, from) <= Limit(s)
  }

  lemma AdmittedStaysBounded(accepted: seq<Request>, r: Request)
    requires Bounded(accepted) && Admits(accepted, r)
    ensures Bounded(accepted + [r])
  {
    assert (accepted + [r])[..|accepted|] == accepted;
    forall s, from: nat ensures InWindow(accepted + [r], s, from) <= Limit(s) {
      assert InWindow(accepted, s, from) <= Limit(s);
      if InScope(r, s) && from <= Second(r) < from + WINDOW {
        WindowWithinLoad(accepted, s, from, Second(r));
        assert HasRoom(accepted, s, Second(r));
      }
    }
  }

  /** In every run, for every source, every destination and overall, every window of 60 seconds of the limiter's
      clock, wherever it starts, holds no more accepted requests than the limit. */
  lemma {:induction false} EveryWindowBounded(accepted: seq<Request>, requests: seq<Request>)
    requires Bounded(accepted)
    ensures Bounded(Serve(accepted, requests))
    decreases |requests|
  {
    if requests != [] {
      if Admits(accepted, requests[0]) {
        AdmittedStaysBounded(accepted, requests[0]);
        EveryWindowBounded(accepted + [requests[0]], requests[1..]);
      } else {
        EveryWindowBounded(accepted, requests[1..]);
      }
    }
  }

  /** Accepted requests of scope `s` in `length` milliseconds from `from` on. */
  function InInterval(accepted: seq<Request>, s: Scope, from: nat, length: nat): nat
  {
    if accepted == [] then 0 else
    var n := |accepted| - 1;
    InInterval(accepted[..n], s, from, length) + if InScope(accepted[n], s) && from <= accepted[n].at < from + length then 1 else 0
  }

  const SAFE: nat := 59_001   // milliseconds

  lemma {:induction false} IntervalInWindow(accepted: seq<Request>, s: Scope, from: nat, length: nat)
    requires length <= SAFE
    ensures InInterval(accepted, s, from, length) <= InWindow(accepted, s, from / 1000)
  {
    if accepted != [] { IntervalInWindow(accepted[..|accepted| - 1], s, from, length); }
  }

  /** The published limits, for everything a forwarder ever accepts: 32 a source key, 64 a destination and
      4096 in all, in any 60 seconds of its clock and so in any 59001 milliseconds. */
  lemma PublishedLimits(requests: seq<Request>, key: Key, from: nat)
    ensures var accepted := Serve([], requests);
      && InWindow(accepted, Source(key), from) <= 32 && InInterval(accepted, Source(key), from, SAFE) <= 32
      && InWindow(accepted, Dest(key), from) <= 64 && InInterval(accepted, Dest(key), from, SAFE) <= 64
      && InWindow(accepted, Global, from) <= 4096 && InInterval(accepted, Global, from, SAFE) <= 4096
    ensures WINDOW == 60
  {
    EveryWindowBounded([], requests);
    var accepted := Serve([], requests);
    forall s ensures InInterval(accepted, s, from, SAFE) <= Limit(s) { IntervalInWindow(accepted, s, from, SAFE); }
  }

  // ----- How long an interval keeps the limits -----

  function Copies(r: Request, n: nat): (rs: seq<Request>)
    ensures |rs| == n
  {
    if n == 0 then [] else Copies(r, n - 1) + [r]
  }

  lemma LoadSnoc(accepted: seq<Request>, r: Request, s: Scope, now: nat)
    ensures Load(accepted + [r], s, now) == Load(accepted, s, now) + if InScope(r, s) && now < Second(r) + WINDOW then 1 else 0
  {
    assert (accepted + [r])[..|accepted|] == accepted;
  }

  lemma AppendCopies(accepted: seq<Request>, r: Request, n: nat)
    requires n > 0
    ensures accepted + Copies(r, n) == (accepted + Copies(r, n - 1)) + [r]
  {
  }

  /** In every scope `n` more stay within the least of the limits. */
  ghost predicate RoomFor(accepted: seq<Request>, now: nat, n: nat) { forall s :: Load(accepted, s, now) + n <= SOURCE_LIMIT }

  lemma OldCopiesLeaveRoom(r: Request, n: nat, now: nat)
    requires now >= Second(r) + WINDOW
    ensures RoomFor(Copies(r, n), now, SOURCE_LIMIT)
  {
    assert [] + Copies(r, n) == Copies(r, n);
    forall s ensures Load(Copies(r, n), s, now) == 0 { LoadOf([], r, n, s, now); }
  }

  /** As long as no scope has more than `room` too many, copies of a request are all accepted. */
  lemma {:induction false} CopiesAccepted(accepted: seq<Request>, r: Request, n: nat, rest: seq<Request>)
    requires RoomFor(accepted, Second(r), n)
    ensures Serve(accepted, Copies(r, n) + rest) == Serve(accepted + Copies(r, n), rest)
    decreases n
  {
    if n == 0 {
      assert [] + rest == rest && accepted + [] == accepted;
    } else {
      assert Copies(r, n) + rest == Copies(r, n - 1) + ([r] + rest);
      CopiesAccepted(accepted, r, n - 1, [r] + rest);
      LoadOf(accepted, r, n - 1, Source(r.source), Second(r));
      LoadOf(accepted, r, n - 1, Dest(r.dest), Second(r));
      LoadOf(accepted, r, n - 1, Global, Second(r));
      AppendCopies(accepted, r, n);
      assert ([r] + rest)[1..] == rest;
    }
  }

  lemma {:induction false} LoadOf(accepted: seq<Request>, r: Request, n: nat, s: Scope, now: nat)
    ensures Load(accepted + Copies(r, n), s, now) == Load(accepted, s, now) + if InScope(r, s) && now < Second(r) + WINDOW then n else 0
  {
    if n == 0 {
      assert accepted + Copies(r, 0) == accepted;
    } else {
      LoadOf(accepted, r, n - 1, s, now);
      AppendCopies(accepted, r, n);
      LoadSnoc(accepted + Copies(r, n - 1), r, s, now);
    }
  }

  lemma {:induction false} IntervalHolds(accepted: seq<Request>, r: Request, n: nat, s: Scope, from: nat, length: nat)
    requires InScope(r, s) && from <= r.at < from + length
    ensures InInterval(accepted + Copies(r, n), s, from, length) == InInterval(accepted, s, from, length) + n
  {
    if n == 0 {
      assert accepted + [] == accepted;
    } else {
      var all := accepted + Copies(r, n);
      assert all[..|all| - 1] == accepted + Copies(r, n - 1);
      IntervalHolds(accepted, r, n - 1, s, from, length);
    }
  }

  /** Two bursts as large as the source limit, 60 seconds of the clock apart, are both accepted. */
  lemma TwoBursts(early: Request, late: Request, n: nat)
    requires n <= SOURCE_LIMIT && Second(late) >= Second(early) + WINDOW
    ensures Serve([], Copies(early, n) + Copies(late, n)) == Copies(early, n) + Copies(late, n)
  {
    CopiesAccepted([], early, n, Copies(late, n));
    assert [] + Copies(early, n) == Copies(early, n);
    OldCopiesLeaveRoom(early, n, Second(late));
    CopiesAccepted(Copies(early, n), late, n, []);
    assert Copies(late, n) + [] == Copies(late, n);
  }

  /** The limits hold in every interval of a length exactly if it is at most 59001 milliseconds: 32 requests at the
      end of a second and 32 at the start of the one 60 later pass, though only 59.001 seconds lie between. */
  lemma SafeLengthIff(length: nat)
    ensures (forall requests, s, from: nat :: InInterval(Serve([], requests), s, from, length) <= Limit(s)) <==> length <= SAFE
  {
    if length <= SAFE {
      forall requests, s, from: nat ensures InInterval(Serve([], requests), s, from, length) <= Limit(s) {
        EveryWindowBounded([], requests);
        IntervalInWindow(Serve([], requests), s, from, length);
      }
    } else {
      var early, late := Request([], [], 999), Request([], [], 60_000);
      TwoBursts(early, late, 32);
      IntervalHolds([], early, 32, Source([]), 999, length);
      assert [] + Copies(early, 32) == Copies(early, 32);
      IntervalHolds(Copies(early, 32), late, 32, Source([]), 999, length);
      assert InInterval(Serve([], Copies(early, 32) + Copies(late, 32)), Source([]), 999, length) > Limit(Source([]));
    }
  }

  // ----- The limits are reached -----

  /** Request `i` of a burst: 32 from each source, 64 to each destination, all in the first second. */
  function BurstRequest(i: nat): Request { Request([i / 32], [i / 64], 0) }

  function Burst(n: nat): (rs: seq<Request>)
    ensures |rs| == n && forall i :: 0 <= i < n ==> rs[i] == BurstRequest(i)
  {
    seq(n, i requires 0 <= i < n => BurstRequest(i))
  }

  /** How many of `n` fall into slot `k` of `size` each. */
  function InSlot(n: nat, size: nat, k: nat): nat
  {
    if n <= size * k then 0 else if n - size * k < size then n - size * k else size
  }

  lemma BurstSnoc(n: nat)
    ensures Burst(n + 1) == Burst(n) + [BurstRequest(n)]
  {
  }

  lemma WindowSnoc(accepted: seq<Request>, r: Request, s: Scope, from: nat)
    ensures InWindow(accepted + [r], s, from) ==
      InWindow(accepted, s, from) + if InScope(r, s) && from <= Second(r) < from + WINDOW then 1 else 0
  {
    assert (accepted + [r])[..|accepted|] == accepted;
  }

  lemma BurstMore(n: nat, s: Scope, now: nat)
    requires now < 60
    ensures var one := if InScope(BurstRequest(n), s) then 1 else 0;
      && Load(Burst(n + 1), s, now) == Load(Burst(n), s, now) + one
      && InWindow(Burst(n + 1), s, 0) == InWindow(Burst(n), s, 0) + one
  {
    BurstSnoc(n);
    LoadSnoc(Burst(n), BurstRequest(n), s, now);
    WindowSnoc(Burst(n), BurstRequest(n), s, 0);
  }

  /** How many requests of a burst count in a scope, at any time in the minute, and stand in its window. */
  lemma {:induction false} BurstCounts(n: nat, k: nat, now: nat)
    requires now < 60
    ensures Load(Burst(n), Source([k]), now) == InWindow(Burst(n), Source([k]), 0) == InSlot(n, 32, k)
    ensures Load(Burst(n), Dest([k]), now) == InWindow(Burst(n), Dest([k]), 0) == InSlot(n, 64, k)
    ensures Load(Burst(n), Global, now) == InWindow(Burst(n), Global, 0) == n
  {
    if n == 0 {
      assert Burst(0) == [];
    } else {
      BurstCounts(n - 1, k, now);
      BurstMore(n - 1, Source([k]), now);
      BurstMore(n - 1, Dest([k]), now);
      BurstMore(n - 1, Global, now);
      SlotStep(n - 1, 32, k);
      SlotStep(n - 1, 64, k);
      assert [(n - 1) / 32] == [k] <==> (n - 1) / 32 == k;
      assert [(n - 1) / 64] == [k] <==> (n - 1) / 64 == k;
    }
  }

  lemma SlotStep(n: nat, size: nat, k: nat)
    requires size == 32 || size == 64
    ensures InSlot(n + 1, size, k) == InSlot(n, size, k) + if n / size == k then 1 else 0
    ensures InSlot(n, size, n / size) == n % size
  {
    if size == 32 { assert n == 32 * (n / 32) + n % 32; } else { assert n == 64 * (n / 64) + n % 64; }
  }

  lemma {:induction false} ServeSnoc(accepted: seq<Request>, requests: seq<Request>, r: Request)
    ensures var before := Serve(accepted, requests);
      Serve(accepted, requests + [r]) == if Admits(before, r) then before + [r] else before
    decreases |requests|
  {
    if requests == [] {
      assert [] + [r] == [r] && [r][1..] == [];
    } else {
      assert (requests + [r])[1..] == requests[1..] + [r];
      ServeSnoc(if Admits(accepted, requests[0]) then accepted + [requests[0]] else accepted, requests[1..], r);
    }
  }

  lemma {:induction false} BurstAccepted(n: nat)
    requires n <= 4096
    ensures Serve([], Burst(n)) == Burst(n)
  {
    if n == 0 {
      assert Burst(0) == [];
    } else {
      BurstAccepted(n - 1);
      BurstSnoc(n - 1);
      ServeSnoc([], Burst(n - 1), BurstRequest(n - 1));
      BurstCounts(n - 1, (n - 1) / 32, 0);
      BurstCounts(n - 1, (n - 1) / 64, 0);
      SlotStep(n - 1, 32, 0);
      SlotStep(n - 1, 64, 0);
    }
  }

  /** The limits are what is accepted, not less: bursts of 32 from one source, of 64 to one destination and of 4096 in
      all are accepted whole, and for the rest of the minute nothing more in that scope is. */
  lemma LimitsAreReached(r: Request)
    requires Second(r) < 60
    ensures Serve([], Burst(32)) == Burst(32) && InWindow(Burst(32), Source([0]), 0) == 32
    ensures Serve([], Burst(64)) == Burst(64) && InWindow(Burst(64), Dest([0]), 0) == 64
    ensures Serve([], Burst(4096)) == Burst(4096) && InWindow(Burst(4096), Global, 0) == 4096
    ensures r.source == [0] ==> !Admits(Burst(32), r)
    ensures r.dest == [0] ==> !Admits(Burst(64), r)
    ensures !Admits(Burst(4096), r)
  {
    BurstAccepted(32);
    BurstAccepted(64);
    BurstAccepted(4096);
    BurstCounts(32, 0, Second(r));
    BurstCounts(64, 0, Second(r));
    BurstCounts(4096, 0, Second(r));
  }

  // ----- Refusals -----

  /** A refused request costs nothing: leaving it out of the run changes nothing that is accepted, so no
      sequence of refused requests can use up a budget. */
  lemma {:induction false} RefusedCostsNothing(accepted: seq<Request>, before: seq<Request>, r: Request, after: seq<Request>)
    requires !Admits(Serve(accepted, before), r)
    ensures Serve(accepted, before + [r] + after) == Serve(accepted, before + after)
    decreases |before|
  {
    if before == [] {
      assert ([] + [r] + after)[1..] == after && [] + after == after;
    } else {
      var next := if Admits(accepted, before[0]) then accepted + [before[0]] else accepted;
      assert (before + [r] + after)[1..] == before[1..] + [r] + after;
      assert (before + after)[1..] == before[1..] + after;
      RefusedCostsNothing(next, before[1..], r, after);
    }
  }

  // ----- Three windows of time stamps -----

  /** The time stamps of `times`, oldest first, from the first one still inside the window. */
  function Live(times: seq<nat>, now: nat): seq<nat>
  {
    if times == [] || now < times[0] + WINDOW then times else Live(times[1..], now)
  }

  function Times(accepted: seq<Request>, s: Scope): seq<nat>
  {
    if accepted == [] then [] else
    var n := |accepted| - 1;
    Times(accepted[..n], s) + if InScope(accepted[n], s) then [Second(accepted[n])] else []
  }

  lemma {:induction false} LiveAgain(times: seq<nat>, now: nat, later: nat)
    requires now <= later
    ensures Live(Live(times, now), later) == Live(times, later)
  {
    if times != [] && now >= times[0] + WINDOW { LiveAgain(times[1..], now, later); }
  }

  lemma {:induction false} LiveSnoc(times: seq<nat>, t: nat, now: nat)
    ensures Live(times + [t], now) == if Live(times, now) == [] then Live([t], now) else Live(times, now) + [t]
  {
    if times == [] {
      assert [] + [t] == [t];
    } else if now >= times[0] + WINDOW {
      assert (times + [t])[1..] == times[1..] + [t];
      LiveSnoc(times[1..], t, now);
    }
  }

  ghost predicate NotAfter(times: seq<nat>, t: nat) { forall i :: 0 <= i < |times| ==> times[i] <= t }

  lemma {:induction false} TimesBounded(accepted: seq<Request>, s: Scope, t: nat)
    requires forall i :: 0 <= i < |accepted| ==> Second(accepted[i]) <= t
    ensures NotAfter(Times(accepted, s), t)
  {
    if accepted != [] { TimesBounded(accepted[..|accepted| - 1], s, t); }
  }

  lemma {:induction false} LiveWithin(times: seq<nat>, t: nat, now: nat)
    requires NotAfter(times, t) && now >= t + WINDOW
    ensures Live(times, now) == []
  {
    if times != [] { LiveWithin(times[1..], t, now); }
  }

  lemma LiveLast(times: seq<nat>, t: nat, now: nat)
    requires NotAfter(times, t)
    ensures |Live(times + [t], now)| == |Live(times, now)| + if now < t + WINDOW then 1 else 0
  {
    LiveSnoc(times, t, now);
    if now >= t + WINDOW {
      LiveWithin(times, t, now);
      assert Live([t], now) == Live([t][1..], now) == [];
    }
  }

  /** For requests accepted in order, the live time stamps are as many as the load. */
  lemma {:induction false} LiveIsLoad(accepted: seq<Request>, s: Scope, now: nat)
    requires InOrder(accepted)
    ensures |Live(Times(accepted, s), now)| == Load(accepted, s, now)
  {
    if accepted != [] {
      var r, before := accepted[|accepted| - 1], accepted[..|accepted| - 1];
      LiveIsLoad(before, s, now);
      if InScope(r, s) {
        TimesBounded(before, s, Second(r));
        LiveLast(Times(before, s), Second(r), now);
      } else {
        assert Times(accepted, s) == Times(before, s);
      }
    }
  }

  /** The three windows: time stamps by source, by destination, and of everything. */
  datatype Windows = Windows(bySource: map<Key, seq<nat>>, byDest: map<Key, seq<nat>>, all: seq<nat>)

  function Stamps(w: Windows, s: Scope): seq<nat>
  {
    match s
    case Source(k) => if k in w.bySource then w.bySource[k] else []
    case Dest(k) => if k in w.byDest then w.byDest[k] else []
    case Global => w.all
  }

  /** A bucket pruned; one with nothing left is dropped. */
  function Clean(buckets: map<Key, seq<nat>>, key: Key, now: nat): map<Key, seq<nat>>
  {
    if key !in buckets then buckets
    else if Live(buckets[key], now) == [] then buckets - {key}
    else buckets[key := Live(buckets[key], now)]
  }

  /** The windows with everything pruned that the decision on `r` looks at. */
  function Cleaned(w: Windows, r: Request): Windows
  {
    Windows(Clean(w.bySource, r.source, Second(r)), Clean(w.byDest, r.dest, Second(r)), Live(w.all, Second(r)))
  }

  /** The windows after `r` is accepted. */
  function Recorded(w: Windows, r: Request): Windows
  {
    var t := Second(r);
    Windows(w.bySource[r.source := Live(Stamps(w, Source(r.source)), t) + [t]],
            w.byDest[r.dest := Live(Stamps(w, Dest(r.dest)), t) + [t]],
            Live(w.all, t) + [t])
  }

  lemma RecordedStamps(w: Windows, r: Request, s: Scope)
    ensures Stamps(Recorded(w, r), s) == if InScope(r, s) then Live(Stamps(w, s), Second(r)) + [Second(r)] else Stamps(w, s)
    ensures Stamps(Cleaned(w, r), s) == if InScope(r, s) then Live(Stamps(w, s), Second(r)) else Stamps(w, s)
  {
  }

  /** What is stored for a scope differs from what was accepted in it only by what can never count again. */
  ghost predicate Faithful(w: Windows, accepted: seq<Request>, clock: nat, s: Scope)
  {
    forall now :: now >= clock ==> Live(Stamps(w, s), now) == Live(Times(accepted, s), now)
  }

  ghost predicate AllFaithful(w: Windows, accepted: seq<Request>, clock: nat) { forall s :: Faithful(w, accepted, clock, s) }

  lemma RecordedFaithful(w: Windows, accepted: seq<Request>, clock: nat, r: Request)
    requires AllFaithful(w, accepted, clock) && clock <= Second(r)
    ensures AllFaithful(Recorded(w, r), accepted + [r], Second(r))
  {
    forall s ensures Faithful(Recorded(w, r), accepted + [r], Second(r), s) {
      assert Faithful(w, accepted, clock, s);
      RecordedStamps(w, r, s);
      Accounted(accepted, r, s, Stamps(w, s), Stamps(Recorded(w, r), s), clock);
    }
  }

  /** Pruning changes no budget. */
  lemma CleanedFaithful(w: Windows, accepted: seq<Request>, clock: nat, r: Request)
    requires AllFaithful(w, accepted, clock) && clock <= Second(r)
    ensures AllFaithful(Cleaned(w, r), accepted, Second(r))
  {
    forall s ensures Faithful(Cleaned(w, r), accepted, Second(r), s) {
      assert Faithful(w, accepted, clock, s);
      RecordedStamps(w, r, s);
      forall now | now >= Second(r) ensures Live(Stamps(Cleaned(w, r), s), now) == Live(Times(accepted, s), now) {
        LiveAgain(Stamps(w, s), Second(r), now);
      }
    }
  }

  class Limiter {
    var bySource: map<Key, seq<nat>>
    var byDest: map<Key, seq<nat>>
    var all: seq<nat>
    ghost var accepted: seq<Request>
    ghost var clock: nat

    function View(): Windows
      reads this
    {
      Windows(bySource, byDest, all)
    }

    ghost predicate Valid()
      reads this
    {
      && InOrder(accepted)
      && (forall i :: 0 <= i < |accepted| ==> Second(accepted[i]) <= clock)
      && AllFaithful(View(), accepted, clock)
    }

    constructor ()
      ensures Valid() && accepted == []
    {
      bySource, byDest, all, accepted, clock := map[], map[], [], [], 0;
    }

    /** One bucket pruned and looked up. */
    method CleanupBucket(buckets: map<Key, seq<nat>>, key: Key, now: nat) returns (rest: map<Key, seq<nat>>, live: seq<nat>)
      ensures rest == Clean(buckets, key, now) && live == Live(if key in buckets then buckets[key] else [], now)
    {
      if key !in buckets { return buckets, []; }
      live := Prune(buckets[key], now);
      rest := if |live| == 0 then buckets - {key} else buckets[key := live];
    }

    lemma RoomIff(s: Scope, now: nat)
      requires Valid() && now >= clock
      ensures |Live(Stamps(View(), s), now)| < Limit(s) <==> HasRoom(accepted, s, now)
    {
      assert Faithful(View(), accepted, clock, s);
      LiveIsLoad(accepted, s, now);
    }

    /** Accepted exactly when all three windows have room. Old stamps go either way, which changes no budget; a
        refusal leaves nothing else behind. */
    method CheckAndCount(r: Request) returns (ok: bool)
      requires Valid() && Second(r) >= clock
      modifies this
      ensures Valid() && clock == Second(r)
      ensures ok == Admits(old(accepted), r)
      ensures accepted == if ok then old(accepted) + [r] else old(accepted)
      ensures View() == if ok then Recorded(old(View()), r) else Cleaned(old(View()), r)
    {
      RoomIff(Source(r.source), Second(r));
      RoomIff(Dest(r.dest), Second(r));
      RoomIff(Global, Second(r));
      CleanedFaithful(View(), accepted, clock, r);
      RecordedFaithful(View(), accepted, clock, r);
      RecordedInOrder(accepted, r);
      ok := Decide(r);
      clock := Second(r);
      if ok { accepted := accepted + [r]; }
    }

    method Decide(r: Request) returns (ok: bool)
      modifies this`bySource, this`byDest, this`all
      ensures var w, t := old(View()), Second(r);
        ok == (|Live(Stamps(w, Source(r.source)), t)| < SOURCE_LIMIT && |Live(Stamps(w, Dest(r.dest)), t)| < DEST_LIMIT
               && |Live(Stamps(w, Global), t)| < GLOBAL_LIMIT)
      ensures View() == if ok then Recorded(old(View()), r) else Cleaned(old(View()), r)
    {
      var t := Second(r);
      ghost var w := View();
      var mine, theirs;
      bySource, mine := CleanupBucket(bySource, r.source, t);
      byDest, theirs := CleanupBucket(byDest, r.dest, t);
      all := Prune(all, t);
      assert mine == Live(Stamps(w, Source(r.source)), t) && theirs == Live(Stamps(w, Dest(r.dest)), t);
      if |mine| >= SOURCE_LIMIT { return false; }
      if |theirs| >= DEST_LIMIT { return false; }
      if |all| >= GLOBAL_LIMIT { return false; }
      SetCleaned(w.bySource, r.source, t, mine + [t]);
      SetCleaned(w.byDest, r.dest, t, theirs + [t]);
      bySource := bySource[r.source := mine + [t]];
      byDest := byDest[r.dest := theirs + [t]];
      all := all + [t];
      ok := true;
    }
  }

  lemma SetCleaned(buckets: map<Key, seq<nat>>, key: Key, now: nat, value: seq<nat>)
    ensures Clean(buckets, key, now)[key := value] == buckets[key := value]
  {
  }

  lemma RecordedInOrder(accepted: seq<Request>, r: Request)
    requires InOrder(accepted) && forall i :: 0 <= i < |accepted| ==> Second(accepted[i]) <= Second(r)
    ensures InOrder(accepted + [r]) && forall i :: 0 <= i < |accepted + [r]| ==> Second((accepted + [r])[i]) <= Second(r)
  {
  }

  /** Storing the pruned stamps plus the new one keeps a scope faithful. */
  lemma Accounted(accepted: seq<Request>, r: Request, s: Scope, stored: seq<nat>, stored': seq<nat>, clock: nat)
    requires forall now :: now >= clock ==> Live(stored, now) == Live(Times(accepted, s), now)
    requires clock <= Second(r)
    requires stored' == if InScope(r, s) then Live(stored, Second(r)) + [Second(r)] else stored
    ensures forall now :: now >= Second(r) ==> Live(stored', now) == Live(Times(accepted + [r], s), now)
  {
    assert (accepted + [r])[..|accepted|] == accepted;
    forall now | now >= Second(r) ensures Live(stored', now) == Live(Times(accepted + [r], s), now) {
      if InScope(r, s) {
        LiveSnoc(Live(stored, Second(r)), Second(r), now);
        LiveSnoc(Times(accepted, s), Second(r), now);
        LiveAgain(stored, Second(r), now);
      } else {
        assert Times(accepted, s) + [] == Times(accepted, s);
      }
    }
  }

  method Prune(times: seq<nat>, now: nat) returns (live: seq<nat>)
    ensures live == Live(times, now)
  {
    live := times;
    while live != [] && now >= live[0] + WINDOW
      invariant Live(live, now) == Live(times, now)
      decreases |live|
    {
      live := live[1..];
    }
  }
}
