/** Back and forward: two stacks around the current page, in the terminal browser and in the GUI client. */
module History {
  import opened Bytes
  import opened Url

  datatype Stacks = Stacks(history: seq<string>, current: Option<string>, future: seq<string>)

  const EMPTY := Stacks([], None, [])

  datatype Action = Navigate(target: string) | Back | Forward | Reload

  function Last(s: seq<string>): string
    requires s != []
  {
    s[|s| - 1]
  }

  function Pop(s: seq<string>): seq<string>
    requires s != []
  {
    s[..|s| - 1]
  }

  ghost predicate Sound(s: Stacks) { s.current.None? ==> s.history == [] && s.future == [] }

  function Pushed(s: Stacks): seq<string> { match s.current case None => s.history case Some(u) => s.history + [u] }

  // ----- The terminal browser -----

  /** One action; `rewrite` is what a page taken from a stack goes through before it becomes current. */
  function StepWith(s: Stacks, a: Action, rewrite: (Option<string>, string) -> string): Stacks
  {
    match a
    case Navigate(target) => Stacks(Pushed(s), Some(ResolveUrl(s.current, target)), [])
    case Back =>
      if s.history == [] || s.current.None? then s
      else Stacks(Pop(s.history), Some(rewrite(s.current, Last(s.history))), s.future + [s.current.value])
    case Forward =>
      if s.future == [] || s.current.None? then s
      else Stacks(s.history + [s.current.value], Some(rewrite(s.current, Last(s.future))), Pop(s.future))
    case Reload => if s.current.None? then s else s.(current := Some(rewrite(s.current, s.current.value)))
  }

  function TuiStep(s: Stacks, a: Action): Stacks { StepWith(s, a, (current, u) => u) }

  /** The GUI client hands pages from its stacks to `navigate`, which resolves them against the page it leaves. */
  function GuiStep(s: Stacks, a: Action): Stacks { StepWith(s, a, ResolveUrl) }

  // ----- One list with a cursor -----

  datatype Timeline = Timeline(pages: seq<string>, cursor: int)

  function Reverse(s: seq<string>): (r: seq<string>)
    ensures |r| == |s|
    ensures forall i :: 0 <= i < |s| ==> r[i] == s[|s| - 1 - i]
  {
    if s == [] then [] else [Last(s)] + Reverse(Pop(s))
  }

  /** What was visited before, the current page, and what can be gone forward to, nearest first. */
  function Abstract(s: Stacks): Timeline
  {
    if s.current.None? then Timeline([], -1)
    else Timeline(s.history + [s.current.value] + Reverse(s.future), |s.history|)
  }

  function TimelineStep(t: Timeline, a: Action): Timeline
    requires -1 <= t.cursor < |t.pages|
  {
    match a
    case Navigate(target) =>
      var current := if t.cursor < 0 then None else Some(t.pages[t.cursor]);
      Timeline(t.pages[..t.cursor + 1] + [ResolveUrl(current, target)], t.cursor + 1)
    case Back => if t.cursor <= 0 then t else t.(cursor := t.cursor - 1)
    case Forward => if t.cursor < 0 || t.cursor + 1 >= |t.pages| then t else t.(cursor := t.cursor + 1)
    case Reload => t
  }

  /** Back and forward only move the cursor; navigating cuts what lay ahead of it. */
  lemma TuiIsTimeline(s: Stacks, a: Action)
    requires Sound(s)
    ensures Sound(TuiStep(s, a)) && Abstract(TuiStep(s, a)) == TimelineStep(Abstract(s), a)
  {
    var t, s' := Abstract(s), TuiStep(s, a);
    if s.current.Some? {
      match a
      case Navigate(target) =>
        assert t.pages[..t.cursor + 1] == s.history + [s.current.value];
        assert s'.history + [s'.current.value] + Reverse(s'.future) == TimelineStep(t, a).pages;
      case Back =>
        if s.history != [] {
          BackTurnsAround(s);
        }
      case Forward =>
        if s.future != [] {
          assert s.history + [s.current.value] + Reverse(s.future) == (s.history + [s.current.value]) + [Last(s.future)] + Reverse(Pop(s.future));
        }
      case Reload =>
    }
  }

  lemma BackTurnsAround(s: Stacks)
    requires s.current.Some? && s.history != []
    ensures Pop(s.history) + [Last(s.history)] + Reverse(s.future + [s.current.value]) == s.history + [s.current.value] + Reverse(s.future)
  {
    var f := s.future + [s.current.value];
    assert Pop(f) == s.future && Reverse(f) == [s.current.value] + Reverse(s.future);
    assert s.history == Pop(s.history) + [Last(s.history)];
  }

  function TuiRun(s: Stacks, actions: seq<Action>): Stacks
    decreases |actions|
  {
    if actions == [] then s else TuiRun(TuiStep(s, actions[0]), actions[1..])
  }

  function GuiRun(s: Stacks, actions: seq<Action>): Stacks
    decreases |actions|
  {
    if actions == [] then s else GuiRun(GuiStep(s, actions[0]), actions[1..])
  }

  function TimelineRun(t: Timeline, actions: seq<Action>): Timeline
    requires -1 <= t.cursor < |t.pages|
    decreases |actions|
  {
    if actions == [] then t else TimelineRun(TimelineStep(t, actions[0]), actions[1..])
  }

  /** Over every run the two stacks are one list with a cursor. */
  lemma {:induction false} StacksAreTimeline(s: Stacks, actions: seq<Action>)
    requires Sound(s)
    ensures Sound(TuiRun(s, actions)) && Abstract(TuiRun(s, actions)) == TimelineRun(Abstract(s), actions)
    decreases |actions|
  {
    if actions != [] {
      TuiIsTimeline(s, actions[0]);
      StacksAreTimeline(TuiStep(s, actions[0]), actions[1..]);
    }
  }

  /** Where they do anything, back and forward undo each other. */
  lemma BackAndForwardUndo(s: Stacks)
    requires s.current.Some?
    ensures s.history != [] ==> TuiStep(TuiStep(s, Back), Forward) == s
    ensures s.future != [] ==> TuiStep(TuiStep(s, Forward), Back) == s
  {
    if s.history != [] { assert Pop(s.history) + [Last(s.history)] == s.history; }
    if s.future != [] { assert Pop(s.future) + [Last(s.future)] == s.future; }
  }

  // ----- The GUI client -----

  /** The action takes an entry that is not absolute from a stack while the current page is anon://. */
  predicate Rewritten(s: Stacks, a: Action)
  {
    s.current.Some? && IsAnon(s.current.value)
    && ((a.Back? && s.history != [] && !IsAnon(Last(s.history))) || (a.Forward? && s.future != [] && !IsAnon(Last(s.future))))
  }

  /** The GUI's step is the terminal browser's exactly if it takes no such entry; reloading is always safe. */
  lemma GuiStepIff(s: Stacks, a: Action)
    ensures GuiStep(s, a) == TuiStep(s, a) <==> !Rewritten(s, a)
  {
    if s.current.Some? {
      if a.Back? && s.history != [] { ResolveFixes(s.current, Last(s.history)); }
      if a.Forward? && s.future != [] { ResolveFixes(s.current, Last(s.future)); }
      if a.Reload? { ResolveFixes(s.current, s.current.value); }
    }
  }

  ghost predicate EverRewritten(s: Stacks, actions: seq<Action>)
    decreases |actions|
  {
    actions != [] && (Rewritten(s, actions[0]) || EverRewritten(TuiStep(s, actions[0]), actions[1..]))
  }

  /** The GUI goes through the same states as the terminal browser, action by action. */
  ghost predicate SameStates(s: Stacks, actions: seq<Action>)
    decreases |actions|
  {
    actions == [] || (GuiStep(s, actions[0]) == TuiStep(s, actions[0]) && SameStates(TuiStep(s, actions[0]), actions[1..]))
  }

  lemma {:induction false} SameStatesIff(s: Stacks, actions: seq<Action>)
    ensures SameStates(s, actions) <==> !EverRewritten(s, actions)
    ensures SameStates(s, actions) ==> GuiRun(s, actions) == TuiRun(s, actions)
    decreases |actions|
  {
    if actions != [] {
      GuiStepIff(s, actions[0]);
      SameStatesIff(TuiStep(s, actions[0]), actions[1..]);
    }
  }

  ghost predicate AllAnon(s: Stacks)
  {
    && (forall i :: 0 <= i < |s.history| ==> IsAnon(s.history[i]))
    && (forall i :: 0 <= i < |s.future| ==> IsAnon(s.future[i]))
    && (s.current.Some? ==> IsAnon(s.current.value))
  }

  /** A session whose first page is absolute stays on absolute pages, whatever is navigated to later. */
  lemma AbsoluteStays(s: Stacks, a: Action)
    requires AllAnon(s) && s.current.Some?
    ensures AllAnon(TuiStep(s, a)) && TuiStep(s, a).current.Some? && !Rewritten(s, a)
  {
    if a.Navigate? { ResolveFixes(s.current, a.target); }
  }

  lemma {:induction false} AbsoluteRun(s: Stacks, actions: seq<Action>)
    requires AllAnon(s) && s.current.Some?
    ensures !EverRewritten(s, actions)
    decreases |actions|
  {
    if actions != [] {
      AbsoluteStays(s, actions[0]);
      AbsoluteRun(TuiStep(s, actions[0]), actions[1..]);
    }
  }

  /** Opened on an absolute page, the GUI too is one list with a cursor over every run. */
  lemma GuiIsTimeline(first: string, actions: seq<Action>)
    requires IsAnon(first)
    ensures Abstract(GuiRun(EMPTY, [Navigate(first)] + actions)) == TimelineRun(Timeline([], -1), [Navigate(first)] + actions)
  {
    var all, s := [Navigate(first)] + actions, GuiStep(EMPTY, Navigate(first));
    assert all[1..] == actions && s == TuiStep(EMPTY, Navigate(first));
    AbsoluteRun(s, actions);
    SameStatesIff(s, actions);
    StacksAreTimeline(EMPTY, all);
  }

  /** Opened on anything else it is not: going back to a relative first page from a page of host `h` leads to
      that host instead. */
  lemma RelativeFirstPageMoves(first: string)
    requires !IsAnon(first)
    ensures GuiRun(EMPTY, [Navigate(first)] + ([Navigate("anon://h/")] + ([Back] + []))).current != Some(first)
    ensures TuiRun(EMPTY, [Navigate(first)] + ([Navigate("anon://h/")] + ([Back] + []))).current == Some(first)
  {
    var page := "anon://h/";
    assert IsAnon(page);
    var s1 := TuiStep(EMPTY, Navigate(first));
    var s2 := TuiStep(s1, Navigate(page));
    assert s2 == Stacks([first], Some(page), []);
    GuiStepIff(s2, Back);
    ResolveFixes(Some(page), first);
    var rest := [Navigate(page)] + ([Back] + []);
    assert ([Navigate(first)] + rest)[1..] == rest && rest[1..] == [Back] + [] && ([Back] + [])[1..] == [];
    assert TuiRun(s1, rest) == TuiRun(s2, [Back] + []) == TuiRun(TuiStep(s2, Back), []);
    assert GuiRun(s1, rest) == GuiRun(s2, [Back] + []) == GuiRun(GuiStep(s2, Back), []);
  }

  // ----- The stateful browsers -----

  class Browser {
    const gui: bool
    var history: seq<string>
    var future: seq<string>
    var currentUrl: Option<string>

    function View(): Stacks
      reads this
    {
      Stacks(history, currentUrl, future)
    }

    constructor (gui: bool)
      ensures this.gui == gui && View() == EMPTY
    {
      this.gui := gui;
      history, future, currentUrl := [], [], None;
    }

    method NavigateTo(target: string)
      modifies this
      ensures View() == TuiStep(old(View()), Navigate(target))
    {
      var url := ResolveUrl(currentUrl, target);
      if currentUrl.Some? { history := history + [currentUrl.value]; }
      future := [];
      currentUrl := Some(url);
    }

    method GoBack()
      requires Sound(View())
      modifies this
      ensures View() == if gui then GuiStep(old(View()), Back) else TuiStep(old(View()), Back)
    {
      if |history| == 0 { return; }
      future := future + [currentUrl.value];
      var u := history[|history| - 1];
      history := history[..|history| - 1];
      currentUrl := Some(if gui then ResolveUrl(currentUrl, u) else u);
    }

    method GoForward()
      requires Sound(View())
      modifies this
      ensures View() == if gui then GuiStep(old(View()), Forward) else TuiStep(old(View()), Forward)
    {
      if |future| == 0 { return; }
      history := history + [currentUrl.value];
      var u := future[|future| - 1];
      future := future[..|future| - 1];
      currentUrl := Some(if gui then ResolveUrl(currentUrl, u) else u);
    }
  }
}
