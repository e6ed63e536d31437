/** What every run of the temporal map keeps: window shape, closed history and disjointness. */
module WindowSafety {
  import opened Wrappers
  import opened TemporalMap

  /** Windows are non-empty, a slot has at most one open window, and an address is opened at most
      once at a height (which makes every lookup by address unambiguous). */
  ghost predicate Valid(t: Table) {
    && (forall i :: 0 <= i < |t| && t[i].to.Some? ==> t[i].from < t[i].to.value)
    && (forall i, j :: 0 <= i < j < |t| && t[i].slot == t[j].slot ==> t[i].to.Some? || t[j].to.Some?)
    && (forall i, j :: 0 <= i < j < |t| && t[i].address == t[j].address ==> t[i].from != t[j].from)
  }

  predicate SameIdentity(w: Window, w': Window) {
    w'.slot == w.slot && w'.address == w.address && w'.from == w.from && w'.openedBy == w.openedBy
  }

  /** `w'` is `w` later on: unchanged bounds, or open then and closed at `b` now. */
  predicate Continues(w: Window, w': Window, b: int) {
    && SameIdentity(w, w')
    && (|| (w'.to == w.to && w'.closedBy == w.closedBy)
        || (w.to.None? && w.from < b && w'.to == Some(b)))
  }

  /** A step with boundary `b` closes open windows at `b` and appends open windows from `b`. */
  ghost predicate Evolves(t: Table, t': Table, b: int) {
    && |t| <= |t'|
    && (forall i :: 0 <= i < |t| ==> Continues(t[i], t'[i], b))
    && (forall i :: |t| <= i < |t'| ==> t'[i].from == b && t'[i].to.None?)
  }

  /** `t'` is a later table in which no closed bound has moved. */
  ghost predicate KeepsClosedBounds(t: Table, t': Table) {
    && |t| <= |t'|
    && (forall i :: 0 <= i < |t| ==> SameIdentity(t[i], t'[i]))
    && (forall i :: 0 <= i < |t| && t[i].to.Some? ==> t'[i].to == t[i].to && t'[i].closedBy == t[i].closedBy)
  }

  // ---- one opening, one closing ----

  lemma {:induction false} EndSelectedShape(t: Table, c: Closing, i: nat, written: nat)
    requires i <= |t|
    ensures var (t', outcome) := EndSelected(t, c, i, written);
            && |t'| == |t|
            && (forall k :: 0 <= k < |t| && t'[k] != t[k] ==>
                  i <= k && Selected(t[k], c) && t[k].from < c.to && t'[k] == Ended(t[k], c))
            && (outcome.Closed? ==>
                  forall k :: i <= k < |t| && Selected(t[k], c) ==> t[k].from < c.to && t'[k] == Ended(t[k], c))
            && (outcome.Closed? ==> outcome.written == written + CountSelected(t[i..], c))
            && (outcome.HeightInvalid? ==>
                  exists k :: i <= k < |t| && Selected(t[k], c) && c.to <= t[k].from)
            && (outcome.Closed? || outcome.HeightInvalid?)
    decreases |t| - i
  {
    if i < |t| {
      assert t[i..][0] == t[i] && t[i..][1..] == t[i + 1..];
      if !Selected(t[i], c) {
        EndSelectedShape(t, c, i + 1, written);
      } else if t[i].from < c.to {
        var u := t[i := Ended(t[i], c)];
        EndSelectedShape(u, c, i + 1, written + 1);
        assert u[i + 1..] == t[i + 1..];
      }
    }
  }

  lemma {:induction false} SelectedOnce(t: Table, c: Closing)
    requires Valid(t)
    ensures CountSelected(t, c) <= 1
    ensures CountSelected(t, c) == 0 <==> forall i :: 0 <= i < |t| ==> !Selected(t[i], c)
  {
    if t != [] {
      var rest := t[1..];
      assert forall i :: 0 <= i < |rest| ==> rest[i] == t[i + 1];
      SelectedOnce(rest, c);
      assert t[0] in t;
      if Selected(t[0], c) {
        forall i | 0 <= i < |rest|
          ensures !Selected(rest[i], c)
        {
          assert rest[i] == t[i + 1];
        }
      }
    }
  }

  /** `temporal_window_ambiguous` is dead: at most one window can be selected. */
  lemma ClosingIsNeverAmbiguous(t: Table, c: Closing)
    requires Valid(t)
    ensures !CloseWindows(t, c).1.AmbiguousWindow?
    ensures CloseWindows(t, c).1.Closed? ==> CloseWindows(t, c).1.written <= 1
  {
    SelectedOnce(t, c);
    EndSelectedShape(t, c, 0, 0);
    assert t[0..] == t;
  }

  lemma EndingEvolves(t: Table, c: Closing)
    requires Valid(t)
    ensures Valid(EndSelected(t, c, 0, 0).0)
    ensures Evolves(t, EndSelected(t, c, 0, 0).0, c.to)
  {
    EndSelectedShape(t, c, 0, 0);
  }

  lemma CloseWindowsEvolves(t: Table, c: Closing)
    requires Valid(t)
    ensures Valid(CloseWindows(t, c).0)
    ensures Evolves(t, CloseWindows(t, c).0, c.to)
  {
    EndingEvolves(t, c);
  }

  /** An opening that is not refused is the only opening of its address at its height. */
  lemma OpeningIsFresh(t: Table, o: Opening, i: nat)
    requires Valid(t)
    requires FindWindow(t, SameWindow(o)).None?
    requires !AddressTaken(EndSelected(t, EndingFor(o), 0, 0).0, o)
    requires i < |t| && t[i].address == o.address
    ensures t[i].from != o.from
  {
    if t[i].from == o.from {
      var ended := EndSelected(t, EndingFor(o), 0, 0).0;
      EndingEvolves(t, EndingFor(o));
      assert Continues(t[i], ended[i], o.from);
      assert Matches(ended[i], Query(None, Some(o.address), o.from));
      assert Matches(t[i], SameWindow(o));
    }
  }

  lemma OpenWindowEvolves(t: Table, o: Opening)
    requires Valid(t)
    ensures Valid(OpenWindow(t, o).0)
    ensures Evolves(t, OpenWindow(t, o).0, o.from)
  {
    if FindWindow(t, SameWindow(o)).None? {
      var (ended, outcome) := EndSelected(t, EndingFor(o), 0, 0);
      EndingEvolves(t, EndingFor(o));
      if outcome.Closed? && !AddressTaken(ended, o) {
        EndSelectedShape(t, EndingFor(o), 0, 0);
        forall i | 0 <= i < |t| && t[i].address == o.address
          ensures t[i].from != o.from
        {
          OpeningIsFresh(t, o, i);
        }
        AppendKeepsValid(ended, NewWindow(o));
      }
    }
  }

  lemma AppendKeepsValid(t: Table, w: Window)
    requires Valid(t)
    requires w.to.None?
    requires forall i :: 0 <= i < |t| && t[i].slot == w.slot ==> t[i].to.Some?
    requires forall i :: 0 <= i < |t| && t[i].address == w.address ==> t[i].from != w.from
    ensures Valid(t + [w])
  {
  }

  // ---- what an opening and a closing achieve ----

  predicate HasWindow(t: Table, slot: int, address: Address, height: int) {
    exists i :: 0 <= i < |t| && t[i].slot == slot && t[i].address == address && Covers(t[i], height)
  }

  predicate SlotOpenFrom(t: Table, slot: int, height: int) {
    exists i :: 0 <= i < |t| && t[i].slot == slot && t[i].to.None? && height <= t[i].from
  }

  predicate OwnedByAnother(t: Table, slot: int, address: Address, height: int) {
    exists i :: 0 <= i < |t| && t[i].slot != slot && t[i].address == address && Covers(t[i], height)
  }

  /** The outcome of an opening, decided on the table as it was before it. */
  lemma OpeningOutcomeExactly(t: Table, o: Opening)
    requires Valid(t)
    ensures var outcome := OpenWindow(t, o).1;
            && (outcome.Refreshed? <==> HasWindow(t, o.slot, o.address, o.from))
            && (outcome.SlotConflict? <==>
                  !HasWindow(t, o.slot, o.address, o.from) && SlotOpenFrom(t, o.slot, o.from))
            && (outcome.AddressConflict? <==>
                  && !HasWindow(t, o.slot, o.address, o.from) && !SlotOpenFrom(t, o.slot, o.from)
                  && OwnedByAnother(t, o.slot, o.address, o.from))
  {
    var same := FindWindow(t, SameWindow(o));
    assert same.Some? <==> HasWindow(t, o.slot, o.address, o.from) by {
      if same.Some? {
        assert t[same.value].slot == o.slot && t[same.value].address == o.address && Covers(t[same.value], o.from);
      }
      if HasWindow(t, o.slot, o.address, o.from) {
        var i :| 0 <= i < |t| && t[i].slot == o.slot && t[i].address == o.address && Covers(t[i], o.from);
        assert Matches(t[i], SameWindow(o));
      }
    }
    if same.None? {
      EndingOutcome(t, o);
      TakenBeforeOrAfter(t, o);
    }
  }

  lemma EndingOutcome(t: Table, o: Opening)
    requires Valid(t)
    ensures !EndSelected(t, EndingFor(o), 0, 0).1.Closed? <==> SlotOpenFrom(t, o.slot, o.from)
  {
    EndSelectedShape(t, EndingFor(o), 0, 0);
    var outcome := EndSelected(t, EndingFor(o), 0, 0).1;
    if SlotOpenFrom(t, o.slot, o.from) {
      var i :| 0 <= i < |t| && t[i].slot == o.slot && t[i].to.None? && o.from <= t[i].from;
      assert Selected(t[i], EndingFor(o));
    }
    if outcome.HeightInvalid? {
      var i :| 0 <= i < |t| && Selected(t[i], EndingFor(o)) && o.from <= t[i].from;
      assert t[i].slot == o.slot && t[i].to.None?;
    }
  }

  lemma TakenBeforeOrAfter(t: Table, o: Opening)
    ensures AddressTaken(EndSelected(t, EndingFor(o), 0, 0).0, o) <==> OwnedByAnother(t, o.slot, o.address, o.from)
  {
    EndSelectedShape(t, EndingFor(o), 0, 0);
    var ended := EndSelected(t, EndingFor(o), 0, 0).0;
    if AddressTaken(ended, o) {
      var i :| 0 <= i < |ended| && Matches(ended[i], Query(None, Some(o.address), o.from)) && ended[i].slot != o.slot;
      assert t[i].slot != o.slot && t[i].address == o.address && Covers(t[i], o.from);
    }
    if OwnedByAnother(t, o.slot, o.address, o.from) {
      var i :| 0 <= i < |t| && t[i].slot != o.slot && t[i].address == o.address && Covers(t[i], o.from);
      assert Matches(ended[i], Query(None, Some(o.address), o.from));
    }
  }

  /** An accepted opening gives the slot its address at the opening height; a created window is the
      slot's only open one and carries the input's fields. */
  lemma OpeningTakesEffect(t: Table, o: Opening)
    requires Valid(t)
    requires OpenWindow(t, o).1.Ok()
    ensures HasWindow(OpenWindow(t, o).0, o.slot, o.address, o.from)
    ensures OpenWindow(t, o).1.Created? ==>
              var t' := OpenWindow(t, o).0;
              && |t'| == |t| + 1 && t'[|t|] == NewWindow(o)
              && forall i :: 0 <= i < |t| && t[i].slot == o.slot ==> t'[i].to == t[i].to.Or(Some(o.from))
  {
    var t' := OpenWindow(t, o).0;
    if OpenWindow(t, o).1.Created? {
      EndSelectedShape(t, EndingFor(o), 0, 0);
      assert Covers(t'[|t|], o.from);
    } else {
      var same := FindWindow(t, SameWindow(o)).value;
      assert Covers(t'[same], o.from);
    }
  }

  /** A closing that reports success leaves no selected window open, ends each of them at the
      boundary, and touches no other window. */
  lemma ClosingTakesEffect(t: Table, c: Closing)
    requires Valid(t)
    requires CloseWindows(t, c).1.Closed?
    ensures var t' := CloseWindows(t, c).0;
            && |t'| == |t|
            && forall i :: 0 <= i < |t| ==> t'[i] == if Selected(t[i], c) then Ended(t[i], c) else t[i]
  {
    EndSelectedShape(t, c, 0, 0);
    SelectedOnce(t, c);
  }

  // ---- one step ----

  lemma EvolvesTwice(t: Table, u: Table, v: Table, b: int)
    requires Evolves(t, u, b) && Evolves(u, v, b)
    ensures Evolves(t, v, b)
  {
    forall i | 0 <= i < |t|
      ensures Continues(t[i], v[i], b)
    {
      assert Continues(t[i], u[i], b) && Continues(u[i], v[i], b);
    }
    forall i | |t| <= i < |v|
      ensures v[i].from == b && v[i].to.None?
    {
      if i < |u| {
        assert Continues(u[i], v[i], b);
      }
    }
  }

  /** `next` follows `m` by a step with boundary `b`, without an ambiguity failure. */
  ghost predicate Follows(m: State, next: State, b: int) {
    && Valid(next.windows)
    && Evolves(m.windows, next.windows, b)
    && (forall f :: f in next.failures && f !in m.failures ==> !f.kind.TemporalWindowAmbiguous?)
  }

  lemma OpenFollows(m: State, o: Opening, height: int)
    requires Valid(m.windows)
    ensures Follows(m, Open(m, o, height), o.from)
  {
    OpenWindowEvolves(m.windows, o);
  }

  lemma CloseFollows(m: State, c: Closing, height: int)
    requires Valid(m.windows)
    ensures Follows(m, Close(m, c, height), c.to)
  {
    CloseWindowsEvolves(m.windows, c);
    ClosingIsNeverAmbiguous(m.windows, c);
  }

  lemma FollowsTwice(m: State, m1: State, m2: State, b: int)
    requires Follows(m, m1, b) && Follows(m1, m2, b)
    ensures Follows(m, m2, b)
  {
    EvolvesTwice(m.windows, m1.windows, m2.windows, b);
  }

  lemma RotateFollows(m: State, closing: Closing, opening: Opening, height: int)
    requires Valid(m.windows)
    requires opening.from == closing.to
    ensures Follows(m, Rotate(m, closing, opening, height), opening.from)
  {
    if FindWindow(m.windows, SameWindow(opening)).Some? {
      OpenFollows(m, opening, height);
    } else {
      var closed := Close(m, closing, height);
      CloseFollows(m, closing, height);
      if CloseWindows(m.windows, closing).1.Closed? {
        OpenFollows(closed, opening, height);
        FollowsTwice(m, closed, Open(closed, opening, height), opening.from);
      }
    }
  }

  lemma RotationFollows(m: State, r: Rotation, height: int)
    requires Valid(m.windows)
    requires Boundary(RotationStep(r)).Some?
    ensures Follows(m, ProjectRotation(m, r, height), Boundary(RotationStep(r)).value)
  {
    var update := RotationUpdateHeight(r).value;
    RotateFollows(m, RotationClosing(r, NormalizeOptionalAddress(r.oldAddress).value, update),
                  RotationOpening(r, NormalizeAddress(r.newAddress).value, update),
                  RotationSourceHeight(r, height));
  }

  lemma LifecycleFollows(m: State, e: LifecycleEvent)
    requires Valid(m.windows)
    requires Boundary(LifecycleStep(e)).Some?
    ensures Follows(m, ProjectLifecycle(m, e), Boundary(LifecycleStep(e)).value)
  {
    if e.eventType.Activated? {
      OpenFollows(m, ActivationOf(e, e.slot.value, NormalizeAddress(e.address).value), e.height);
    } else {
      CloseFollows(m, DeactivationOf(e, e.slot.value), e.height);
    }
  }

  lemma StepFollows(m: State, s: Step, height: int)
    requires Valid(m.windows)
    requires Boundary(s).Some?
    ensures Follows(m, Apply(m, s, height), Boundary(s).value)
  {
    match s
    case LifecycleStep(e) => LifecycleFollows(m, e);
    case RotationStep(r) => RotationFollows(m, r, height);
  }

  lemma StepWithoutBoundary(m: State, s: Step, height: int)
    requires Boundary(s).None?
    ensures Apply(m, s, height).windows == m.windows
    ensures forall f :: f in Apply(m, s, height).failures && f !in m.failures ==> !f.kind.TemporalWindowAmbiguous?
  {
  }

  lemma EvolvesKeepsClosedBounds(t: Table, t': Table, b: int)
    requires Evolves(t, t', b)
    ensures KeepsClosedBounds(t, t')
  {
    forall i | 0 <= i < |t|
      ensures SameIdentity(t[i], t'[i])
      ensures t[i].to.Some? ==> t'[i].to == t[i].to && t'[i].closedBy == t[i].closedBy
    {
      assert Continues(t[i], t'[i], b);
    }
  }

  lemma {:induction false} StepsKeepWindowSafety(m: State, steps: seq<Step>, height: int)
    requires Valid(m.windows)
    ensures Valid(ApplyAll(m, steps, height).windows)
    ensures KeepsClosedBounds(m.windows, ApplyAll(m, steps, height).windows)
    ensures forall f :: f in ApplyAll(m, steps, height).failures && f !in m.failures
                  ==> !f.kind.TemporalWindowAmbiguous?
  {
    if steps != [] {
      var n := |steps| - 1;
      StepsKeepWindowSafety(m, steps[..n], height);
      var before := ApplyAll(m, steps[..n], height);
      if Boundary(steps[n]).None? {
        StepWithoutBoundary(before, steps[n], height);
      } else {
        StepFollows(before, steps[n], height);
        EvolvesKeepsClosedBounds(before.windows, Apply(before, steps[n], height).windows, Boundary(steps[n]).value);
      }
    }
  }

  /** Over every run: windows stay well formed, closed bounds never move again, and no
      `temporal_window_ambiguous` failure is ever recorded. */
  lemma {:induction false} RunKeepsWindowSafety(m: State, sources: seq<HeightSource>)
    requires Valid(m.windows)
    requires forall f :: f in m.failures ==> !f.kind.TemporalWindowAmbiguous?
    ensures Valid(ProjectRange(m, sources).windows)
    ensures KeepsClosedBounds(m.windows, ProjectRange(m, sources).windows)
    ensures forall f :: f in ProjectRange(m, sources).failures ==> !f.kind.TemporalWindowAmbiguous?
  {
    if sources != [] {
      var n := |sources| - 1;
      RunKeepsWindowSafety(m, sources[..n]);
      var before := ProjectRange(m, sources[..n]);
      StepsKeepWindowSafety(Prepare(before, sources[n].height), sources[n].Steps(), sources[n].height);
    }
  }
}
