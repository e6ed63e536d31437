/** Exactly which runs of the temporal map keep windows disjoint. */
module DisjointRuns {
  import opened Wrappers
  import opened TemporalMap
  import opened WindowSafety
  import opened WindowDisjointness

  // ---- a step in terms of windows ----

  /** The windows after a step; failures and counters do not matter to them. */
  function StepWindows(t: Table, s: Step): Table {
    Apply(State(t, {}, 0, 0), s, 0).windows
  }

  lemma WindowsOfStep(m: State, s: Step, height: int)
    ensures Apply(m, s, height).windows == StepWindows(m.windows, s)
  {
  }

  /** An opening that a step makes, and the table it finds: a rotation closes the old key's window first. */
  datatype Attempt = Attempt(table: Table, opening: Opening)

  function AttemptOf(t: Table, s: Step): Option<Attempt> {
    if Boundary(s).None? then None
    else
      match s
      case LifecycleStep(e) =>
        if e.eventType.Activated? then
          Some(Attempt(t, ActivationOf(e, e.slot.value, NormalizeAddress(e.address).value)))
        else None
      case RotationStep(r) =>
        var update := RotationUpdateHeight(r).value;
        var opening := RotationOpening(r, NormalizeAddress(r.newAddress).value, update);
        var closing := RotationClosing(r, NormalizeOptionalAddress(r.oldAddress).value, update);
        if FindWindow(t, SameWindow(opening)).Some? then Some(Attempt(t, opening))
        else if CloseWindows(t, closing).1.Closed? then Some(Attempt(CloseWindows(t, closing).0, opening))
        else None
  }

  /** If the step creates a window, then at or after the ends of the related ones. */
  ghost predicate CreatesLast(t: Table, s: Step) {
    var a := AttemptOf(t, s);
    a.Some? && OpenWindow(a.value.table, a.value.opening).1.Created? ==> OpensLast(a.value.table, a.value.opening)
  }

  lemma ClosingKeepsAllDisjoint(t: Table, c: Closing)
    requires Valid(t) && Disjoint(t)
    ensures Disjoint(EndSelected(t, c, 0, 0).0)
    ensures Disjoint(CloseWindows(t, c).0)
  {
    EndSelectedShape(t, c, 0, 0);
    var t' := EndSelected(t, c, 0, 0).0;
    forall i, j | 0 <= i < j < |t'| && Related(t'[i], t'[j])
      ensures Before(t'[i], t'[j]) || Before(t'[j], t'[i])
    {
      assert Related(t[i], t[j]);
    }
  }

  lemma RefreshKeepsDisjoint(t: Table, o: Opening)
    requires Disjoint(t) && OpenWindow(t, o).1.Refreshed?
    ensures Disjoint(OpenWindow(t, o).0)
  {
    var t' := OpenWindow(t, o).0;
    forall i, j | 0 <= i < j < |t'| && Related(t'[i], t'[j])
      ensures Before(t'[i], t'[j]) || Before(t'[j], t'[i])
    {
      assert Related(t[i], t[j]);
    }
  }

  lemma AttemptKeepsDisjointExactly(t: Table, o: Opening)
    requires Valid(t) && Disjoint(t)
    ensures Disjoint(OpenWindow(t, o).0) <==> (OpenWindow(t, o).1.Created? ==> OpensLast(t, o))
  {
    match OpenWindow(t, o).1 {
      case Refreshed => RefreshKeepsDisjoint(t, o);
      case Created => OpeningKeepsDisjointExactly(t, o);
      case _ => ClosingKeepsAllDisjoint(t, EndingFor(o));
    }
  }

  /** One step keeps disjointness exactly when what it creates comes last. */
  lemma StepKeepsDisjointExactly(t: Table, s: Step)
    requires Valid(t) && Disjoint(t)
    ensures Disjoint(StepWindows(t, s)) <==> CreatesLast(t, s)
  {
    var a := AttemptOf(t, s);
    if Boundary(s).None? {
      StepWithoutBoundary(State(t, {}, 0, 0), s, 0);
    } else if a.Some? {
      AttemptGivesTheWindows(t, s);
      if s.RotationStep? {
        var closing := RotationClosing(s.rotation, NormalizeOptionalAddress(s.rotation.oldAddress).value,
                                       RotationUpdateHeight(s.rotation).value);
        CloseWindowsEvolves(t, closing);
        ClosingKeepsAllDisjoint(t, closing);
      }
      AttemptKeepsDisjointExactly(a.value.table, a.value.opening);
    } else {
      NoAttemptCloses(t, s);
    }
  }

  lemma AttemptGivesTheWindows(t: Table, s: Step)
    requires AttemptOf(t, s).Some?
    ensures StepWindows(t, s) == OpenWindow(AttemptOf(t, s).value.table, AttemptOf(t, s).value.opening).0
  {
  }

  lemma NoAttemptCloses(t: Table, s: Step)
    requires Valid(t) && Disjoint(t) && Boundary(s).Some? && AttemptOf(t, s).None?
    ensures Disjoint(StepWindows(t, s))
  {
    match s
    case LifecycleStep(e) => ClosingKeepsAllDisjoint(t, DeactivationOf(e, e.slot.value));
    case RotationStep(r) =>
      ClosingKeepsAllDisjoint(t, RotationClosing(r, NormalizeOptionalAddress(r.oldAddress).value,
                                                 RotationUpdateHeight(r).value));
  }

  // ---- runs ----

  function WindowsAfter(t: Table, steps: seq<Step>): Table {
    if steps == [] then t else StepWindows(WindowsAfter(t, steps[..|steps| - 1]), steps[|steps| - 1])
  }

  lemma {:induction false} WindowsOfSteps(m: State, steps: seq<Step>, height: int)
    ensures ApplyAll(m, steps, height).windows == WindowsAfter(m.windows, steps)
  {
    if steps != [] {
      var n := |steps| - 1;
      WindowsOfSteps(m, steps[..n], height);
      WindowsOfStep(ApplyAll(m, steps[..n], height), steps[n], height);
    }
  }

  lemma {:induction false} WindowsAfterBoth(t: Table, a: seq<Step>, b: seq<Step>)
    ensures WindowsAfter(t, a + b) == WindowsAfter(WindowsAfter(t, a), b)
  {
    if b == [] {
      assert a + b == a;
    } else {
      assert (a + b)[..|a + b| - 1] == a + b[..|b| - 1];
      WindowsAfterBoth(t, a, b[..|b| - 1]);
    }
  }

  /** The windows of a run are those of its steps, height after height. */
  lemma {:induction false} WindowsOfRun(m: State, sources: seq<HeightSource>)
    ensures ProjectRange(m, sources).windows == WindowsAfter(m.windows, AllSteps(sources))
  {
    if sources != [] {
      var n := |sources| - 1;
      var before := ProjectRange(m, sources[..n]);
      WindowsOfRun(m, sources[..n]);
      WindowsOfSteps(Prepare(before, sources[n].height), sources[n].Steps(), sources[n].height);
      WindowsAfterBoth(m.windows, AllSteps(sources[..n]), sources[n].Steps());
    }
  }

  lemma StepStaysValid(t: Table, s: Step)
    requires Valid(t)
    ensures Valid(StepWindows(t, s))
  {
    if Boundary(s).None? {
      StepWithoutBoundary(State(t, {}, 0, 0), s, 0);
    } else {
      StepFollows(State(t, {}, 0, 0), s, 0);
    }
  }

  ghost predicate DisjointUntil(t: Table, steps: seq<Step>, n: nat)
    requires n <= |steps|
  {
    forall k :: 0 <= k <= n ==> Disjoint(WindowsAfter(t, steps[..k]))
  }

  ghost predicate CreatesLastUntil(t: Table, steps: seq<Step>, n: nat)
    requires n <= |steps|
  {
    forall k :: 0 <= k < n ==> CreatesLast(WindowsAfter(t, steps[..k]), steps[k])
  }

  /** Windows are disjoint after every one of the steps. */
  ghost predicate AlwaysDisjoint(t: Table, steps: seq<Step>) {
    DisjointUntil(t, steps, |steps|)
  }

  /** Every window that the steps create comes after the related ones of its time. */
  ghost predicate AlwaysCreatesLast(t: Table, steps: seq<Step>) {
    CreatesLastUntil(t, steps, |steps|)
  }

  lemma OneMoreStep(t: Table, steps: seq<Step>, n: nat)
    requires n < |steps|
    ensures WindowsAfter(t, steps[..n + 1]) == StepWindows(WindowsAfter(t, steps[..n]), steps[n])
  {
    assert steps[..n + 1][..n] == steps[..n];
  }

  lemma DisjointOneMore(t: Table, steps: seq<Step>, n: nat)
    requires n < |steps|
    ensures DisjointUntil(t, steps, n + 1) <==> DisjointUntil(t, steps, n) && Disjoint(WindowsAfter(t, steps[..n + 1]))
    ensures CreatesLastUntil(t, steps, n + 1) <==>
            CreatesLastUntil(t, steps, n) && CreatesLast(WindowsAfter(t, steps[..n]), steps[n])
  {
  }

  lemma {:induction false} DisjointUpTo(t: Table, steps: seq<Step>, n: nat)
    requires Valid(t) && Disjoint(t) && n <= |steps|
    ensures Valid(WindowsAfter(t, steps[..n]))
    ensures DisjointUntil(t, steps, n) <==> CreatesLastUntil(t, steps, n)
  {
    if n == 0 {
      assert WindowsAfter(t, steps[..0]) == t;
    } else {
      var before := WindowsAfter(t, steps[..n - 1]);
      DisjointUpTo(t, steps, n - 1);
      OneMoreStep(t, steps, n - 1);
      DisjointOneMore(t, steps, n - 1);
      StepStaysValid(before, steps[n - 1]);
      if DisjointUntil(t, steps, n - 1) {
        StepKeepsDisjointExactly(before, steps[n - 1]);
      }
    }
  }

  /** From disjoint windows, a run stays disjoint exactly when every window it creates comes last. */
  lemma RunStaysDisjointExactly(m: State, sources: seq<HeightSource>)
    requires Valid(m.windows) && Disjoint(m.windows)
    ensures AlwaysDisjoint(m.windows, AllSteps(sources)) <==> AlwaysCreatesLast(m.windows, AllSteps(sources))
    ensures ProjectRange(m, sources).windows == WindowsAfter(m.windows, AllSteps(sources))
  {
    var steps := AllSteps(sources);
    WindowsOfRun(m, sources);
    DisjointUpTo(m.windows, steps, |steps|);
  }

  // ---- a run that does not ----

  const FOUNDER := GenesisSlot(true, Some(1), None, HexAddress(7), None)

  /** Projected at height 5, taking effect at 18: the slot's window ends at 20. */
  const SUSPENSION := LifecycleEvent(1, 1, 5, Some(1), Suspended, None, NoAddress, None, Some(18))

  /** Projected at height 6, taking effect at 13: another window of the slot starts at 15. */
  const ACTIVATION := LifecycleEvent(2, 2, 6, Some(1), Activated, None, HexAddress(8), None, Some(13))

  function FoundingWindow(): Window {
    NewWindow(Opening(1, None, 7, None, None, 1, Genesis))
  }

  lemma FounderIsSeeded()
    ensures SeedAll(State([], {}, 0, 0), [FOUNDER]).windows == [FoundingWindow()]
  {
    var o := Opening(1, None, 7, None, None, 1, Genesis);
    assert [FOUNDER][..0] == [];
    assert SeedAll(State([], {}, 0, 0), []) == State([], {}, 0, 0);
    assert EndSelected([], EndingFor(o), 0, 0) == ([], Closed(0));
    var created := OpenWindow([], o).0;
    assert created == [NewWindow(o)];
    assert SeedAll(State([], {}, 0, 0), [FOUNDER]) == SeedSlot(State([], {}, 0, 0), FOUNDER);
  }

  lemma SuspensionEnds(t: Table)
    requires t == [FoundingWindow()]
    ensures StepWindows(t, LifecycleStep(SUSPENSION)) == [Ended(t[0], DeactivationOf(SUSPENSION, 1))]
  {
    var c := DeactivationOf(SUSPENSION, 1);
    assert Selected(t[0], c) && CountSelected(t, c) == 1 by {
      assert t[1..] == [];
    }
    assert t[0 := Ended(t[0], c)] == [Ended(t[0], c)];
    assert EndSelected([Ended(t[0], c)], c, 1, 1) == ([Ended(t[0], c)], Closed(1));
  }

  lemma ActivationOpens(t: Table)
    requires t == [Ended(FoundingWindow(), DeactivationOf(SUSPENSION, 1))]
    ensures StepWindows(t, LifecycleStep(ACTIVATION)) == t + [NewWindow(ActivationOf(ACTIVATION, 1, 8))]
  {
    var o := ActivationOf(ACTIVATION, 1, 8);
    assert !Selected(t[0], EndingFor(o));
    assert EndSelected(t, EndingFor(o), 1, 0) == (t, Closed(0));
    assert EndSelected(t, EndingFor(o), 0, 0) == (t, Closed(0));
    assert FindWindow(t, SameWindow(o)).None?;
  }

  lemma StepsOfTwoHeights(first: HeightSource, second: HeightSource)
    ensures AllSteps([first, second]) == first.Steps() + second.Steps()
  {
    assert [first, second][..1] == [first] && [first][..0] == [];
    assert AllSteps([]) == [];
    assert AllSteps([first]) == AllSteps([]) + first.Steps() == first.Steps();
  }

  lemma WindowsAfterTwo(t: Table, a: Step, b: Step)
    ensures WindowsAfter(t, [a] + [b]) == StepWindows(StepWindows(t, a), b)
  {
    WindowsAfterBoth(t, [a], [b]);
    assert [a][..0] == [] && [b][..0] == [];
    assert WindowsAfter(t, []) == t && WindowsAfter(WindowsAfter(t, [a]), []) == WindowsAfter(t, [a]);
  }

  /** The boundaries of these two heights decrease, from 20 to 15, and the slot has two windows at 17. */
  lemma DecreasingBoundaryOverlaps()
    ensures var sources := [HeightSource(5, [SUSPENSION], []), HeightSource(6, [ACTIVATION], [])];
            var t := ProjectRange(SeedAll(State([], {}, 0, 0), [FOUNDER]), sources).windows;
            |t| == 2 && t[0].slot == t[1].slot && Covers(t[0], 17) && Covers(t[1], 17) && !Disjoint(t)
  {
    var m := SeedAll(State([], {}, 0, 0), [FOUNDER]);
    var first, second := HeightSource(5, [SUSPENSION], []), HeightSource(6, [ACTIVATION], []);
    var a, b := LifecycleStep(SUSPENSION), LifecycleStep(ACTIVATION);
    assert first.Steps() == [a] && second.Steps() == [b];
    WindowsOfRun(m, [first, second]);
    StepsOfTwoHeights(first, second);
    WindowsAfterTwo(m.windows, a, b);
    FounderIsSeeded();
    SuspensionEnds(m.windows);
    ActivationOpens([Ended(FoundingWindow(), DeactivationOf(SUSPENSION, 1))]);
    TwoWindowsOverlap(ProjectRange(m, [first, second]).windows);
  }

  lemma TwoWindowsOverlap(t: Table)
    requires t == [Ended(FoundingWindow(), DeactivationOf(SUSPENSION, 1))] + [NewWindow(ActivationOf(ACTIVATION, 1, 8))]
    ensures |t| == 2 && t[0].slot == t[1].slot && Covers(t[0], 17) && Covers(t[1], 17) && !Disjoint(t)
  {
    assert Related(t[0], t[1]);
  }
}
