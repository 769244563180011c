/** The launcher's connect page: progress bars, failure and completion. */
module ConnectUi {

  datatype Bar = Bar(name: string, pct: int, status: string)

  datatype Call = Update(name: string, pct: int, status: string) | Fail(message: string) | Finish

  function ClampPct(p: int): (r: int)
    ensures 0 <= r <= 100 && (0 <= p <= 100 ==> r == p) && (p < 0 ==> r == 0) && (p > 100 ==> r == 100)
  {
    if p < 0 then 0 else if p > 100 then 100 else p
  }

  // ----- The page as a function of the calls so far -----

  /** The distinct names updated, in first-seen order. */
  function Names(log: seq<Call>): seq<string>
  {
    if log == [] then [] else
    var before, c := Names(log[..|log| - 1]), log[|log| - 1];
    if c.Update? && c.name !in before then before + [c.name] else before
  }

  predicate Updates(c: Call, name: string) { c.Update? && c.name == name }

  /** The last update of a name. */
  function LastUpdate(log: seq<Call>, name: string): (i: nat)
    requires exists i :: 0 <= i < |log| && Updates(log[i], name)
    ensures i < |log| && Updates(log[i], name)
    ensures forall j :: i < j < |log| ==> !Updates(log[j], name)
  {
    var n := |log| - 1;
    if Updates(log[n], name) then n else LastUpdate(log[..n], name)
  }

  lemma {:induction false} NamedIffUpdated(log: seq<Call>, name: string)
    ensures name in Names(log) <==> exists i :: 0 <= i < |log| && Updates(log[i], name)
  {
    if log != [] {
      var n := |log| - 1;
      NamedIffUpdated(log[..n], name);
      assert log == log[..n] + [log[n]];
    }
  }

  /** The first update of a name. */
  function FirstUpdate(log: seq<Call>, name: string): (i: nat)
    requires exists i :: 0 <= i < |log| && Updates(log[i], name)
    ensures i < |log| && Updates(log[i], name)
    ensures forall j :: 0 <= j < i ==> !Updates(log[j], name)
  {
    if Updates(log[0], name) then 0 else
    assert exists i :: 0 <= i < |log[1..]| && Updates(log[1..][i], name) by {
      var i :| 0 <= i < |log| && Updates(log[i], name);
      assert log[1..][i - 1] == log[i];
    }
    1 + FirstUpdate(log[1..], name)
  }

  /** No name twice, and the earlier row is the name first seen earlier. */
  lemma {:induction false} NamesAreInFirstSeenOrder(log: seq<Call>, a: nat, b: nat)
    requires a < b < |Names(log)|
    ensures Names(log)[a] != Names(log)[b]
    ensures (exists i :: 0 <= i < |log| && Updates(log[i], Names(log)[a])) && (exists i :: 0 <= i < |log| && Updates(log[i], Names(log)[b]))
    ensures FirstUpdate(log, Names(log)[a]) < FirstUpdate(log, Names(log)[b])
  {
    var n, names := |log| - 1, Names(log);
    var before := Names(log[..n]);
    NamedIffUpdated(log, names[a]);
    NamedIffUpdated(log, names[b]);
    assert names[a] in names && names[b] in names;
    if b < |before| {
      NamesAreInFirstSeenOrder(log[..n], a, b);
      SameFirst(log, n, names[a]);
      SameFirst(log, n, names[b]);
    } else {
      assert names[a] == before[a] && names[a] in before;
      NamedIffUpdated(log[..n], names[a]);
      SameFirst(log, n, names[a]);
      NamedIffUpdated(log[..n], names[b]);
      var f := FirstUpdate(log, names[b]);
      assert f < n ==> log[..n][f] == log[f];
    }
  }

  lemma SameFirst(log: seq<Call>, n: nat, name: string)
    requires n <= |log| && exists i :: 0 <= i < n && Updates(log[..n][i], name)
    ensures exists i :: 0 <= i < |log| && Updates(log[i], name)
    ensures FirstUpdate(log, name) == FirstUpdate(log[..n], name) < n
  {
    var i :| 0 <= i < n && Updates(log[..n][i], name);
    assert Updates(log[i], name);
    var f, g := FirstUpdate(log, name), FirstUpdate(log[..n], name);
    assert log[..n][g] == log[g];
    assert f < n && log[..n][f] == log[f];
  }

  function Row(log: seq<Call>, name: string): Bar
    requires exists i :: 0 <= i < |log| && Updates(log[i], name)
  {
    var c := log[LastUpdate(log, name)];
    Bar(name, ClampPct(c.pct), c.status)
  }

  /** The bar shows the last update of the name. */
  ghost predicate Holds(log: seq<Call>, name: string, bar: Bar)
  {
    (exists i :: 0 <= i < |log| && Updates(log[i], name)) && bar == Row(log, name)
  }

  /** The bar is what update `i` says, the last one of its name. */
  ghost predicate SaidLast(log: seq<Call>, name: string, bar: Bar, i: nat)
  {
    && i < |log| && Updates(log[i], name) && (forall j :: i < j < |log| ==> !Updates(log[j], name))
    && bar == Bar(name, ClampPct(log[i].pct), log[i].status)
  }

  /** A bar's percentage and label are those of the last update of its name. */
  lemma HoldsIff(log: seq<Call>, name: string, bar: Bar)
    ensures Holds(log, name, bar) <==> exists i: nat :: SaidLast(log, name, bar, i)
  {
    if Holds(log, name, bar) { assert SaidLast(log, name, bar, LastUpdate(log, name)); }
  }

  function Seeded(): seq<Bar>
  {
    [Bar("consensus", 0, "waiting…"), Bar("tor", 0, "waiting…"), Bar("bridge", 0, "waiting…")]
  }

  ghost predicate IsPage(log: seq<Call>, bars: seq<Bar>)
  {
    var names := Names(log);
    if names == [] then bars == Seeded() else
      |bars| == |names| && forall k :: 0 <= k < |names| ==>
        Holds(log, names[k], bars[k])
  }

  // ----- Failure and completion -----

  datatype Outcome = Outcome(finished: bool, fatal: string)

  function After(o: Outcome, c: Call): Outcome
  {
    match c
    case Update(_, _, _) => o
    case Fail(message) => if o.finished then o else o.(fatal := message)
    case Finish => if o.finished || o.fatal != "" then o else o.(finished := true)
  }

  function Result(log: seq<Call>): Outcome
  {
    if log == [] then Outcome(false, "") else After(Result(log[..|log| - 1]), log[|log| - 1])
  }

  /** The message of the last failure, or none. */
  function LastFailure(log: seq<Call>): string
  {
    if log == [] then ""
    else if log[|log| - 1].Fail? then log[|log| - 1].message
    else LastFailure(log[..|log| - 1])
  }

  /** Never connected and failed at once, and what is finished stays so with no message. */
  lemma {:induction false} FinishedIsFinal(log: seq<Call>, more: seq<Call>)
    ensures !(Result(log).finished && Result(log).fatal != "")
    ensures Result(log).finished ==> Result(log + more) == Outcome(true, "")
    decreases |log| + |more|
  {
    if more != [] {
      var n := |more| - 1;
      FinishedIsFinal(log, more[..n]);
      assert (log + more)[..|log + more| - 1] == log + more[..n];
    } else {
      assert log + more == log;
      if log != [] { FinishedIsFinal(log[..|log| - 1], []); }
    }
  }

  ghost predicate CleanFinish(log: seq<Call>, i: int)
  {
    0 <= i < |log| && log[i].Finish? && LastFailure(log[..i]) == ""
  }

  /** Boot counts as complete exactly if Finish was called at a moment at which the last failure message, if
      there was any, was empty; until then the page shows exactly the last failure message. */
  lemma {:induction false} FinishedIff(log: seq<Call>)
    ensures Result(log).finished <==> exists i :: CleanFinish(log, i)
    ensures !Result(log).finished ==> Result(log).fatal == LastFailure(log)
  {
    if log != [] {
      var n := |log| - 1;
      var before := log[..n];
      FinishedIff(before);
      if Result(before).finished {
        var i :| CleanFinish(before, i);
        assert before[..i] == log[..i];
        assert CleanFinish(log, i);
      } else {
        forall i | CleanFinish(log, i) ensures i == n {
          if i < n {
            assert before[..i] == log[..i];
            assert CleanFinish(before, i);
          }
        }
        FinishedIsFinal(before, []);
        if log[n].Finish? && Result(before).fatal == "" { assert CleanFinish(log, n); }
      }
    }
  }

  /** A failure keeps a later Finish from completing exactly as long as its message is not empty and no later
      failure takes it back: an empty message does. */
  lemma EmptyFailureReopens(message: string)
    ensures message != "" ==> !Result([Fail(message), Finish]).finished
    ensures Result([Fail(message), Fail(""), Finish]).finished
  {
    var a, b := [Fail(message), Finish], [Fail(message), Fail(""), Finish];
    assert a[..1] == [Fail(message)] && [Fail(message)][..0] == [];
    assert b[..2] == [Fail(message), Fail("")] && b[..2][..1] == [Fail(message)];
    assert Result([Fail(message)]) == Outcome(false, message);
    assert Result(b[..2]) == Outcome(false, "");
  }

  datatype View = View(bars: seq<Bar>, done: bool, fatal: string, title: string)

  // ----- The server -----

  class Server {
    var state: map<string, Bar>
    var order: seq<string>
    var finished: bool
    var fatal: string
    ghost var log: seq<Call>

    ghost predicate Valid()
      reads this
    {
      && order == Names(log)
      && Outcome(finished, fatal) == Result(log)
      && (forall name :: name in state <==> name in order)
      && (forall name :: name in order ==> Holds(log, name, state[name]))
    }

    constructor ()
      ensures Valid() && log == []
    {
      state, order, finished, fatal, log := map[], [], false, "", [];
    }

    method Update(name: string, pct: int, status: string)
      requires Valid()
      modifies this
      ensures Valid() && log == old(log) + [Call.Update(name, pct, status)]
    {
      if name !in state { order := order + [name]; }
      state := state[name := Bar(name, ClampPct(pct), status)];
      log := log + [Call.Update(name, pct, status)];
      assert log[..|log| - 1] == old(log);
      forall other | other in order ensures Holds(log, other, state[other]) {
        if other == name { RowNew(old(log), Call.Update(name, pct, status)); } else { RowKept(old(log), Call.Update(name, pct, status), other, state[other]); }
      }
    }

    method Fail(message: string)
      requires Valid()
      modifies this
      ensures Valid() && log == old(log) + [Call.Fail(message)]
    {
      if !finished { fatal := message; }
      Logged(Call.Fail(message));
    }

    method Finish()
      requires Valid()
      modifies this
      ensures Valid() && log == old(log) + [Call.Finish]
    {
      if !finished && fatal == "" { finished := true; }
      Logged(Call.Finish);
    }

    /** A call that updates no bar. */
    ghost method Logged(c: Call)
      requires !c.Update? && order == Names(log) && Outcome(finished, fatal) == After(Result(log), c)
      requires (forall name :: name in state <==> name in order)
      requires forall name :: name in order ==> Holds(log, name, state[name])
      modifies this`log
      ensures Valid() && log == old(log) + [c]
    {
      log := log + [c];
      assert log[..|log| - 1] == old(log);
      forall name | name in order ensures Holds(log, name, state[name]) {
        RowKept(old(log), c, name, state[name]);
      }
    }

    /** The page: one bar for each distinct name in first-seen order with its last label and clamped
        percentage, or the three expected ones while there is none. */
    method Render() returns (v: View)
      requires Valid()
      ensures IsPage(log, v.bars)
      ensures v.done == Result(log).finished && v.fatal == Result(log).fatal && !(v.done && v.fatal != "")
      ensures log == [] ==> v.bars == [Bar("consensus", 0, "waiting…"), Bar("tor", 0, "waiting…"), Bar("bridge", 0, "waiting…")]
      ensures v.title == if v.done then "CONNECTED" else if v.fatal != "" then "CONNECTION FAILED" else "// ANON BROWSER"
    {
      var bars := [];
      if |order| == 0 {
        bars := Seeded();
      } else {
        for k := 0 to |order|
          invariant |bars| == k && forall j :: 0 <= j < k ==> bars[j] == state[order[j]]
        {
          assert order[k] in order;
          bars := bars + [state[order[k]]];
        }
      }
      FinishedIsFinal(log, []);
      var title := if finished then "CONNECTED" else if fatal != "" then "CONNECTION FAILED" else "// ANON BROWSER";
      v := View(bars, finished, fatal, title);
    }
  }

  lemma RowKept(log: seq<Call>, c: Call, name: string, bar: Bar)
    requires Holds(log, name, bar) && !Updates(c, name)
    ensures Holds(log + [c], name, bar)
  {
    var i :| 0 <= i < |log| && Updates(log[i], name);
    assert Updates((log + [c])[i], name);
    assert (log + [c])[..|log|] == log;
  }

  lemma RowNew(log: seq<Call>, c: Call)
    requires c.Update?
    ensures Holds(log + [c], c.name, Bar(c.name, ClampPct(c.pct), c.status))
  {
    assert Updates((log + [c])[|log|], c.name);
  }
}
