/** When windows of one slot, or of one consensus address, never overlap. */
module WindowDisjointness {
  import opened Wrappers
  import opened TemporalMap
  import opened WindowSafety

  predicate Before(w: Window, v: Window) {
    w.to.Some? && w.to.value <= v.from
  }

  predicate Related(w: Window, v: Window) {
    w.slot == v.slot || w.address == v.address
  }

  ghost predicate Disjoint(t: Table) {
    forall i, j :: 0 <= i < j < |t| && Related(t[i], t[j]) ==> Before(t[i], t[j]) || Before(t[j], t[i])
  }

  /** No bound in the table lies above `b`. */
  ghost predicate BoundedBy(t: Table, b: int) {
    forall i :: 0 <= i < |t| ==> t[i].from <= b && (t[i].to.Some? ==> t[i].to.value <= b)
  }

  /** Disjointness says what a reader wants: at any height at most one window per slot and at most
      one per consensus address, and nothing weaker does. */
  lemma DisjointMeansOneWindowPerHeight(t: Table)
    requires Valid(t)
    ensures Disjoint(t) <==>
            forall i, j, x :: 0 <= i < j < |t| && Related(t[i], t[j]) ==> !(Covers(t[i], x) && Covers(t[j], x))
  {
    if !Disjoint(t) {
      var i, j :| 0 <= i < j < |t| && Related(t[i], t[j]) && !Before(t[i], t[j]) && !Before(t[j], t[i]);
      var x := if t[i].from < t[j].from then t[j].from else t[i].from;
      assert Covers(t[i], x) && Covers(t[j], x);
    }
  }

  lemma ClosingKeepsDisjoint(t: Table, c: Closing, bound: int)
    requires Valid(t) && Disjoint(t) && BoundedBy(t, bound) && bound <= c.to
    ensures Disjoint(EndSelected(t, c, 0, 0).0)
    ensures BoundedBy(EndSelected(t, c, 0, 0).0, c.to)
  {
    EndSelectedShape(t, c, 0, 0);
    var t' := EndSelected(t, c, 0, 0).0;
    forall i, j | 0 <= i < j < |t'| && Related(t'[i], t'[j])
      ensures Before(t'[i], t'[j]) || Before(t'[j], t'[i])
    {
      assert Related(t[i], t[j]);
    }
  }

  lemma OpeningKeepsDisjoint(t: Table, o: Opening, bound: int)
    requires Valid(t) && Disjoint(t) && BoundedBy(t, bound) && bound <= o.from
    ensures Disjoint(OpenWindow(t, o).0)
    ensures BoundedBy(OpenWindow(t, o).0, o.from)
  {
    var same := FindWindow(t, SameWindow(o));
    if same.Some? {
      var t' := OpenWindow(t, o).0;
      forall i, j | 0 <= i < j < |t'| && Related(t'[i], t'[j])
        ensures Before(t'[i], t'[j]) || Before(t'[j], t'[i])
      {
        assert Related(t[i], t[j]);
      }
    } else {
      ClosingKeepsDisjoint(t, EndingFor(o), bound);
      EndSelectedShape(t, EndingFor(o), 0, 0);
      var (ended, outcome) := EndSelected(t, EndingFor(o), 0, 0);
      if outcome.Closed? && !AddressTaken(ended, o) {
        forall i | 0 <= i < |ended| && Related(ended[i], NewWindow(o))
          ensures Before(ended[i], NewWindow(o))
        {
          if ended[i].slot != o.slot {
            assert !Matches(ended[i], Query(None, Some(o.address), o.from));
          }
        }
      }
    }
  }

  lemma RotateKeepsDisjoint(m: State, closing: Closing, opening: Opening, height: int, bound: int)
    requires Valid(m.windows) && Disjoint(m.windows) && BoundedBy(m.windows, bound)
    requires bound <= opening.from == closing.to
    ensures Disjoint(Rotate(m, closing, opening, height).windows)
    ensures BoundedBy(Rotate(m, closing, opening, height).windows, opening.from)
  {
    if FindWindow(m.windows, SameWindow(opening)).Some? {
      OpeningKeepsDisjoint(m.windows, opening, bound);
    } else {
      var closed := CloseWindows(m.windows, closing).0;
      ClosingKeepsDisjoint(m.windows, closing, bound);
      CloseWindowsEvolves(m.windows, closing);
      if CloseWindows(m.windows, closing).1.Closed? {
        assert Disjoint(closed) && BoundedBy(closed, opening.from);
        OpeningKeepsDisjoint(closed, opening, opening.from);
      }
    }
  }

  lemma LifecycleKeepsDisjoint(m: State, e: LifecycleEvent, bound: int)
    requires Valid(m.windows) && Disjoint(m.windows) && BoundedBy(m.windows, bound)
    requires Boundary(LifecycleStep(e)).Some? && bound <= Boundary(LifecycleStep(e)).value
    ensures Disjoint(ProjectLifecycle(m, e).windows)
    ensures BoundedBy(ProjectLifecycle(m, e).windows, Boundary(LifecycleStep(e)).value)
  {
    if e.eventType.Activated? {
      OpeningKeepsDisjoint(m.windows, ActivationOf(e, e.slot.value, NormalizeAddress(e.address).value), bound);
    } else {
      ClosingKeepsDisjoint(m.windows, DeactivationOf(e, e.slot.value), bound);
    }
  }

  lemma StepKeepsDisjoint(m: State, s: Step, height: int, bound: int)
    requires Valid(m.windows) && Disjoint(m.windows) && BoundedBy(m.windows, bound)
    requires Boundary(s).Some? && bound <= Boundary(s).value
    ensures Disjoint(Apply(m, s, height).windows)
    ensures BoundedBy(Apply(m, s, height).windows, Boundary(s).value)
  {
    match s
    case LifecycleStep(e) => LifecycleKeepsDisjoint(m, e, bound);
    case RotationStep(r) =>
      var update := RotationUpdateHeight(r).value;
      RotateKeepsDisjoint(m, RotationClosing(r, NormalizeOptionalAddress(r.oldAddress).value, update),
                          RotationOpening(r, NormalizeAddress(r.newAddress).value, update),
                          RotationSourceHeight(r, height), bound);
  }

  /** Boundaries that do not decrease in processing order, none below `low`. */
  ghost predicate Ordered(steps: seq<Step>, low: int) {
    && (forall i :: 0 <= i < |steps| && Boundary(steps[i]).Some? ==> low <= Boundary(steps[i]).value)
    && (forall i, j :: 0 <= i < j < |steps| && Boundary(steps[i]).Some? && Boundary(steps[j]).Some?
          ==> Boundary(steps[i]).value <= Boundary(steps[j]).value)
  }

  function LastBoundary(steps: seq<Step>, low: int): int {
    if steps == [] then low
    else Boundary(steps[|steps| - 1]).GetOr(LastBoundary(steps[..|steps| - 1], low))
  }

  lemma {:induction false} LastBoundaryIsOne(steps: seq<Step>, low: int)
    ensures LastBoundary(steps, low) == low
         || exists i :: 0 <= i < |steps| && Boundary(steps[i]) == Some(LastBoundary(steps, low))
  {
    if steps != [] {
      var n := |steps| - 1;
      LastBoundaryIsOne(steps[..n], low);
      if Boundary(steps[n]).None? && LastBoundary(steps, low) != low {
        var i :| 0 <= i < n && Boundary(steps[..n][i]) == Some(LastBoundary(steps, low));
        assert Boundary(steps[i]) == Some(LastBoundary(steps, low));
      }
    }
  }

  lemma NextStepStaysDisjoint(m: State, step: Step, height: int, bound: int)
    requires Valid(m.windows) && Disjoint(m.windows) && BoundedBy(m.windows, bound)
    requires Boundary(step).Some? ==> bound <= Boundary(step).value
    ensures Valid(Apply(m, step, height).windows) && Disjoint(Apply(m, step, height).windows)
    ensures BoundedBy(Apply(m, step, height).windows, Boundary(step).GetOr(bound))
  {
    if Boundary(step).None? {
      StepWithoutBoundary(m, step, height);
    } else {
      StepFollows(m, step, height);
      StepKeepsDisjoint(m, step, height, bound);
    }
  }

  lemma LastBoundaryIsBelow(steps: seq<Step>, low: int, n: nat)
    requires n < |steps| && Ordered(steps, low) && Boundary(steps[n]).Some?
    ensures LastBoundary(steps[..n], low) <= Boundary(steps[n]).value
  {
    LastBoundaryIsOne(steps[..n], low);
  }

  lemma {:induction false} OrderedStepsStayDisjoint(m: State, steps: seq<Step>, height: int, low: int)
    requires Valid(m.windows) && Disjoint(m.windows) && BoundedBy(m.windows, low)
    requires Ordered(steps, low)
    ensures Valid(ApplyAll(m, steps, height).windows)
    ensures Disjoint(ApplyAll(m, steps, height).windows)
    ensures BoundedBy(ApplyAll(m, steps, height).windows, LastBoundary(steps, low))
  {
    if steps != [] {
      var n := |steps| - 1;
      OrderedStepsStayDisjoint(m, steps[..n], height, low);
      if Boundary(steps[n]).Some? {
        LastBoundaryIsBelow(steps, low, n);
      }
      NextStepStaysDisjoint(ApplyAll(m, steps[..n], height), steps[n], height, LastBoundary(steps[..n], low));
    }
  }

  // ---- whole runs ----

  function AllSteps(sources: seq<HeightSource>): seq<Step> {
    if sources == [] then [] else AllSteps(sources[..|sources| - 1]) + sources[|sources| - 1].Steps()
  }

  lemma {:induction false} OrderedRunStaysDisjointFrom(m: State, sources: seq<HeightSource>, low: int)
    requires Valid(m.windows) && Disjoint(m.windows) && BoundedBy(m.windows, low)
    requires Ordered(AllSteps(sources), low)
    ensures Valid(ProjectRange(m, sources).windows)
    ensures Disjoint(ProjectRange(m, sources).windows)
    ensures BoundedBy(ProjectRange(m, sources).windows, LastBoundary(AllSteps(sources), low))
  {
    if sources != [] {
      var n := |sources| - 1;
      var earlier, steps := AllSteps(sources[..n]), sources[n].Steps();
      OrderedSplits(earlier, steps, low);
      LastOfConcatenation(earlier, steps, low);
      OrderedRunStaysDisjointFrom(m, sources[..n], low);
      OrderedStepsStayDisjoint(Prepare(ProjectRange(m, sources[..n]), sources[n].height), steps,
                               sources[n].height, LastBoundary(earlier, low));
    }
  }

  lemma OrderedSplits(a: seq<Step>, b: seq<Step>, low: int)
    requires Ordered(a + b, low)
    ensures Ordered(a, low)
    ensures Ordered(b, LastBoundary(a, low))
  {
    var all := a + b;
    forall i | 0 <= i < |a|
      ensures all[i] == a[i]
    {
    }
    forall i | 0 <= i < |b|
      ensures all[|a| + i] == b[i]
    {
    }
    LastBoundaryIsOne(a, low);
    forall i | 0 <= i < |b| && Boundary(b[i]).Some?
      ensures LastBoundary(a, low) <= Boundary(b[i]).value
    {
      assert all[|a| + i] == b[i];
      if LastBoundary(a, low) != low {
        var k :| 0 <= k < |a| && Boundary(a[k]) == Some(LastBoundary(a, low));
        assert all[k] == a[k];
      }
    }
    forall i, j | 0 <= i < j < |b| && Boundary(b[i]).Some? && Boundary(b[j]).Some?
      ensures Boundary(b[i]).value <= Boundary(b[j]).value
    {
      assert all[|a| + i] == b[i] && all[|a| + j] == b[j];
    }
  }

  lemma {:induction false} LastOfConcatenation(a: seq<Step>, b: seq<Step>, low: int)
    ensures LastBoundary(a + b, low) == LastBoundary(b, LastBoundary(a, low))
  {
    if b == [] {
      assert a + b == a;
    } else {
      assert (a + b)[..|a + b| - 1] == a + b[..|b| - 1];
      LastOfConcatenation(a, b[..|b| - 1], low);
    }
  }

  /** The genesis validator set, seeded into an empty table, is disjoint and starts at height 1. */
  lemma {:induction false} GenesisSeedIsDisjoint(failures: set<Failure>, slots: seq<GenesisSlot>)
    ensures var m := SeedAll(State([], failures, 0, 0), slots);
            Valid(m.windows) && Disjoint(m.windows) && BoundedBy(m.windows, 1)
  {
    if slots != [] {
      var n := |slots| - 1;
      GenesisSeedIsDisjoint(failures, slots[..n]);
      var before, g := SeedAll(State([], failures, 0, 0), slots[..n]), slots[n];
      if g.active && g.slot.Some? && NormalizeAddress(g.address).Some? {
        var o := Opening(g.slot.value, g.operator, NormalizeAddress(g.address).value, g.power, None, 1, Genesis);
        OpeningKeepsDisjoint(before.windows, o, 1);
        OpenWindowEvolves(before.windows, o);
      }
    }
  }

  /** From the genesis set, boundaries that never decrease keep at most one window per slot and per
      address over every height. */
  lemma OrderedRunStaysDisjoint(failures: set<Failure>, slots: seq<GenesisSlot>, sources: seq<HeightSource>)
    requires Ordered(AllSteps(sources), 1)
    ensures var t := ProjectRange(SeedAll(State([], failures, 0, 0), slots), sources).windows;
            && Disjoint(t)
            && forall i, j, x :: 0 <= i < j < |t| && Related(t[i], t[j]) ==> !(Covers(t[i], x) && Covers(t[j], x))
  {
    var seeded := SeedAll(State([], failures, 0, 0), slots);
    GenesisSeedIsDisjoint(failures, slots);
    OrderedRunStaysDisjointFrom(seeded, sources, 1);
    DisjointMeansOneWindowPerHeight(ProjectRange(seeded, sources).windows);
  }

  // ---- exactly when one opening keeps disjointness ----

  /** No window of the slot ends, and no window of the address starts, above the opening height. */
  ghost predicate OpensLast(t: Table, o: Opening) {
    forall i :: 0 <= i < |t| ==>
      && (t[i].slot == o.slot && t[i].to.Some? ==> t[i].to.value <= o.from)
      && (t[i].address == o.address ==> t[i].from <= o.from)
  }

  lemma OpeningKeepsDisjointExactly(t: Table, o: Opening)
    requires Valid(t) && Disjoint(t)
    requires OpenWindow(t, o).1.Created?
    ensures Disjoint(OpenWindow(t, o).0) <==> OpensLast(t, o)
  {
    EndSelectedShape(t, EndingFor(o), 0, 0);
    var ended := EndSelected(t, EndingFor(o), 0, 0).0;
    var t' := OpenWindow(t, o).0;
    var n := |ended|;
    assert t' == ended + [NewWindow(o)];
    forall i, j | 0 <= i < j < n && Related(t'[i], t'[j])
      ensures Before(t'[i], t'[j]) || Before(t'[j], t'[i])
    {
      assert Related(t[i], t[j]);
    }
    forall i | 0 <= i < n
      ensures Related(t'[i], t'[n]) && Before(t'[i], t'[n]) ==>
                && (t[i].slot == o.slot && t[i].to.Some? ==> t[i].to.value <= o.from)
                && (t[i].address == o.address ==> t[i].from <= o.from)
      ensures Related(t'[i], t'[n]) && !Before(t'[i], t'[n]) ==>
                || (t[i].slot == o.slot && t[i].to.Some? && o.from < t[i].to.value)
                || (t[i].address == o.address && o.from < t[i].from)
    {
      assert ended[i].slot != o.slot ==> !Matches(ended[i], Query(None, Some(o.address), o.from));
    }
    assert forall i :: 0 <= i < n ==> (Related(t'[i], t'[n]) <==> t[i].slot == o.slot || t[i].address == o.address);
    assert Before(t'[n], t'[n]) == false;
  }

  // ---- refused openings ----

  predicate SlotOpenBefore(t: Table, slot: int, height: int) {
    exists i :: 0 <= i < |t| && t[i].slot == slot && t[i].to.None? && t[i].from < height
  }

  /** A refused opening is a no-op exactly when no open window of the slot starts before it. Otherwise the
      address belongs to another slot and the slot's open window is ended all the same. */
  lemma RefusedOpeningIsANoOpExactly(t: Table, o: Opening)
    requires Valid(t) && !OpenWindow(t, o).1.Ok()
    ensures OpenWindow(t, o).0 == t <==> !SlotOpenBefore(t, o.slot, o.from)
    ensures SlotOpenBefore(t, o.slot, o.from) ==> OpenWindow(t, o).1.AddressConflict?
    ensures |OpenWindow(t, o).0| == |t|
    ensures forall i :: 0 <= i < |t| ==>
              OpenWindow(t, o).0[i] ==
              if OpenWindow(t, o).1.AddressConflict? && t[i].slot == o.slot && t[i].to.None?
              then t[i].(to := Some(o.from), closedBy := Some(o.origin)) else t[i]
  {
    var t' := OpenWindow(t, o).0;
    EndSelectedShape(t, EndingFor(o), 0, 0);
    OpeningOutcomeExactly(t, o);
    if SlotOpenBefore(t, o.slot, o.from) {
      var i :| 0 <= i < |t| && t[i].slot == o.slot && t[i].to.None? && t[i].from < o.from;
      assert Selected(t[i], EndingFor(o));
    }
  }
}
