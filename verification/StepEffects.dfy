/** What an event or a rotation does to the windows of its slot, and when it is refused instead. */
module StepEffects {
  import opened Wrappers
  import opened TemporalMap
  import opened WindowSafety

  /** An opening succeeds, or its conflict is recorded. */
  lemma OpenTakesEffect(m: State, o: Opening, sourceHeight: int)
    requires Valid(m.windows)
    ensures var m' := Open(m, o, sourceHeight);
            var conflict := !HasWindow(m.windows, o.slot, o.address, o.from)
                            && (SlotOpenFrom(m.windows, o.slot, o.from)
                                || OwnedByAnother(m.windows, o.slot, o.address, o.from));
            && (!conflict ==> HasWindow(m'.windows, o.slot, o.address, o.from) && m'.failures == m.failures)
            && (conflict ==> m'.failures == m.failures
                               + {Failure(TemporalWindowConflict, sourceHeight, o.origin.EventId(), None)})
  {
    OpeningOutcomeExactly(m.windows, o);
    if OpenWindow(m.windows, o).1.Ok() {
      OpeningTakesEffect(m.windows, o);
    }
  }

  /** An activation gives its slot a window for its address from two heights after the update on, unless an
      open window of the slot starts later or another slot owns the address, which is recorded. */
  lemma ActivationTakesEffect(m: State, e: LifecycleEvent, height: int)
    requires Valid(m.windows) && e.slot.Some? && e.eventType.Activated? && e.address.HexAddress?
    ensures var m' := Apply(m, LifecycleStep(e), height);
            var slot, a, b := e.slot.value, e.address.address, e.effectiveHeight.GetOr(e.height) + 2;
            if HasWindow(m.windows, slot, a, b)
               || !(SlotOpenFrom(m.windows, slot, b) || OwnedByAnother(m.windows, slot, a, b))
            then HasWindow(m'.windows, slot, a, b) && m'.failures == m.failures
            else m'.failures == m.failures + {Failure(TemporalWindowConflict, e.height, Some(e.sourceEventId), None)}
  {
    OpenTakesEffect(m, ActivationOf(e, e.slot.value, e.address.address), e.height);
  }

  predicate Deactivates(e: LifecycleEvent) {
    e.eventType.Inactivated? || e.eventType.Suspended? || e.eventType.Removed?
  }

  /** An inactivation, suspension or removal ends the slot's open window two heights after the update and
      touches nothing else, unless that window starts later, which is recorded. */
  lemma DeactivationTakesEffect(m: State, e: LifecycleEvent, height: int)
    requires Valid(m.windows) && e.slot.Some? && Deactivates(e)
    ensures var m' := Apply(m, LifecycleStep(e), height);
            var slot, b := e.slot.value, e.effectiveHeight.GetOr(e.height) + 2;
            if SlotOpenFrom(m.windows, slot, b)
            then m'.failures == m.failures + {Failure(EffectiveHeightInvalid, e.height, Some(e.sourceEventId), None)}
            else
              && m'.failures == m.failures && |m'.windows| == |m.windows|
              && forall i :: 0 <= i < |m.windows| ==>
                   m'.windows[i] ==
                   if m.windows[i].slot == slot && m.windows[i].to.None?
                   then m.windows[i].(to := Some(b), closedBy := Some(FromLifecycle(e.sourceEventId, e.id)))
                   else m.windows[i]
  {
    var c := DeactivationOf(e, e.slot.value);
    CloseFailsExactly(m.windows, c);
    if CloseWindows(m.windows, c).1.Closed? {
      ClosingTakesEffect(m.windows, c);
    }
  }

  /** A window that a closing selects starts too late for it. */
  predicate StartsTooLate(t: Table, c: Closing) {
    exists i :: 0 <= i < |t| && Selected(t[i], c) && c.to <= t[i].from
  }

  /** A closing that does not require a window fails exactly when a selected window starts too late. */
  lemma CloseFailsExactly(t: Table, c: Closing)
    requires Valid(t) && !c.requireWindow
    ensures CloseWindows(t, c).1.Closed? <==> !StartsTooLate(t, c)
    ensures !CloseWindows(t, c).1.Closed? ==> CloseWindows(t, c).1.HeightInvalid?
    ensures c.target.AnyWindow? ==> (StartsTooLate(t, c) <==> SlotOpenFrom(t, c.slot, c.to))
  {
    ClosingIsNeverAmbiguous(t, c);
    NothingSelectedExactly(t, c);
    EndSelectedShape(t, c, 0, 0);
    if c.target.AnyWindow? && SlotOpenFrom(t, c.slot, c.to) {
      var i :| 0 <= i < |t| && t[i].slot == c.slot && t[i].to.None? && c.to <= t[i].from;
      assert Selected(t[i], c);
    }
  }

  lemma {:induction false} NothingSelectedExactly(t: Table, c: Closing)
    ensures CountSelected(t, c) == 0 <==> forall i :: 0 <= i < |t| ==> !Selected(t[i], c)
  {
    if t != [] {
      NothingSelectedExactly(t[1..], c);
      assert forall i :: 0 < i < |t| ==> t[i] == t[1..][i - 1];
    }
  }

  /** The slot has its window for the address, and no other one if it was not there already. */
  ghost predicate Rotated(t: Table, t': Table, slot: int, address: Address, b: int) {
    && HasWindow(t', slot, address, b)
    && (!HasWindow(t, slot, address, b) ==>
          && |t'| == |t| + 1
          && forall i :: 0 <= i < |t| && t[i].slot == slot ==> t'[i].to == t[i].to.Or(Some(b)))
  }

  lemma RotateTakesEffect(m: State, closing: Closing, opening: Opening, sourceHeight: int)
    requires Valid(m.windows) && closing.slot == opening.slot && closing.to == opening.from
    ensures var m' := Rotate(m, closing, opening, sourceHeight);
            m'.failed == m.failed ==> Rotated(m.windows, m'.windows, opening.slot, opening.address, opening.from)
  {
    SameWindowExactly(m.windows, opening);
    OpeningOutcomeExactly(m.windows, opening);
    if FindWindow(m.windows, SameWindow(opening)).Some? {
      OpeningTakesEffect(m.windows, opening);
    } else if CloseWindows(m.windows, closing).1.Closed? {
      CloseThenOpen(m.windows, closing, opening);
    }
  }

  /** A rotation that leaves no failure gives its slot a window for the new address two heights after the
      update, and no other window of the slot stays open. */
  lemma RotationTakesEffect(m: State, r: Rotation, height: int)
    requires Valid(m.windows) && (r.status.Applied? || r.status.ImmediateApplied?)
    requires r.newAddress.HexAddress? && NormalizeOptionalAddress(r.oldAddress).Some? && RotationUpdateHeight(r).Some?
    ensures var m' := Apply(m, RotationStep(r), height);
            m'.failed == m.failed ==>
              Rotated(m.windows, m'.windows, r.slot, r.newAddress.address,
                      r.effectiveHeight.Or(r.appliedHeight).value + 2)
  {
    var update := RotationUpdateHeight(r).value;
    RotateTakesEffect(m, RotationClosing(r, NormalizeOptionalAddress(r.oldAddress).value, update),
                      RotationOpening(r, r.newAddress.address, update), RotationSourceHeight(r, height));
  }

  /** Why a rotation fails, decided on the windows as they were before it. */
  function RotationFailure(t: Table, closing: Closing, opening: Opening): Option<FailureKind> {
    if HasWindow(t, opening.slot, opening.address, opening.from) then None
    else if closing.requireWindow && !HasSelected(t, closing) then Some(MissingActivationWindow)
    else if StartsTooLate(t, closing) then Some(EffectiveHeightInvalid)
    else if SlotOpenFrom(t, opening.slot, opening.from)
            || OwnedByAnother(t, opening.slot, opening.address, opening.from) then Some(TemporalWindowConflict)
    else None
  }

  predicate HasSelected(t: Table, c: Closing) {
    exists i :: 0 <= i < |t| && Selected(t[i], c)
  }

  lemma CloseOutcomeExactly(t: Table, c: Closing)
    requires Valid(t)
    ensures var outcome := CloseWindows(t, c).1;
            && (outcome.MissingWindow? <==> c.requireWindow && !HasSelected(t, c))
            && (outcome.HeightInvalid? <==> StartsTooLate(t, c))
            && !outcome.AmbiguousWindow?
    ensures !CloseWindows(t, c).1.Closed? ==> CloseWindows(t, c).0 == t
  {
    ClosingIsNeverAmbiguous(t, c);
    NothingSelectedExactly(t, c);
    EndSelectedShape(t, c, 0, 0);
    SelectedOnce(t, c);
    if StartsTooLate(t, c) {
      var i :| 0 <= i < |t| && Selected(t[i], c) && c.to <= t[i].from;
      OnlyOneSelected(t, c, i);
    }
  }

  lemma OnlyOneSelected(t: Table, c: Closing, i: nat)
    requires Valid(t) && i < |t| && Selected(t[i], c)
    ensures forall k :: 0 <= k < |t| && Selected(t[k], c) ==> k == i
  {
  }

  /** Closing the old key's window ends a window before the new one starts, so it takes no conflict away and
      adds none. */
  lemma ConflictsSurviveClosing(t: Table, c: Closing, o: Opening)
    requires Valid(t) && c.slot == o.slot && c.to == o.from && CloseWindows(t, c).1.Closed?
    ensures var u := CloseWindows(t, c).0;
            && (SlotOpenFrom(u, o.slot, o.from) <==> SlotOpenFrom(t, o.slot, o.from))
            && (OwnedByAnother(u, o.slot, o.address, o.from) <==> OwnedByAnother(t, o.slot, o.address, o.from))
  {
    var u := CloseWindows(t, c).0;
    ClosingTakesEffect(t, c);
    CloseOutcomeExactly(t, c);
    if SlotOpenFrom(t, o.slot, o.from) {
      var i :| 0 <= i < |t| && t[i].slot == o.slot && t[i].to.None? && o.from <= t[i].from;
      assert u[i] == t[i];
    }
    if OwnedByAnother(t, o.slot, o.address, o.from) {
      var i :| 0 <= i < |t| && t[i].slot != o.slot && t[i].address == o.address && Covers(t[i], o.from);
      assert u[i] == t[i];
    }
    if OwnedByAnother(u, o.slot, o.address, o.from) {
      var i :| 0 <= i < |u| && u[i].slot != o.slot && u[i].address == o.address && Covers(u[i], o.from);
      assert u[i] == t[i];
    }
  }

  /** What a failed rotation leaves: the windows as they were, except that its slot's open window is ended when
      no other failure but another slot's claim to the new address stopped it. */
  ghost predicate LeavesAfterFailure(t: Table, t': Table, slot: int, b: int, taken: bool) {
    && |t'| == |t|
    && forall i :: 0 <= i < |t| ==>
         if taken && t[i].slot == slot && t[i].to.None? then SameIdentity(t[i], t'[i]) && t'[i].to == Some(b)
         else t'[i] == t[i]
  }

  lemma FailedOpeningLeaves(t: Table, c: Closing, o: Opening)
    requires Valid(t) && c.slot == o.slot && c.to == o.from && CloseWindows(t, c).1.Closed?
    requires !OpenWindow(CloseWindows(t, c).0, o).1.Ok()
    ensures LeavesAfterFailure(t, OpenWindow(CloseWindows(t, c).0, o).0, o.slot, o.from,
                               !SlotOpenFrom(t, o.slot, o.from))
  {
    var u := CloseWindows(t, c).0;
    var v := OpenWindow(u, o).0;
    CloseWindowsEvolves(t, c);
    ClosingTakesEffect(t, c);
    ConflictsSurviveClosing(t, c, o);
    OpeningOutcomeExactly(u, o);
    EndSelectedShape(u, EndingFor(o), 0, 0);
    if SlotOpenFrom(t, o.slot, o.from) {
      LateWindowKeepsAll(t, c, o);
    }
  }

  /** While the slot's open window starts too late, nothing of the slot is closed. */
  lemma LateWindowKeepsAll(t: Table, c: Closing, o: Opening)
    requires Valid(t) && c.slot == o.slot && c.to == o.from && CloseWindows(t, c).1.Closed?
    requires SlotOpenFrom(t, o.slot, o.from)
    ensures CloseWindows(t, c).0 == t
    ensures EndSelected(t, EndingFor(o), 0, 0).0 == t
  {
    ClosingTakesEffect(t, c);
    CloseOutcomeExactly(t, c);
    EndSelectedShape(t, EndingFor(o), 0, 0);
    var i :| 0 <= i < |t| && t[i].slot == o.slot && t[i].to.None? && o.from <= t[i].from;
    assert forall k :: 0 <= k < |t| && k != i && t[k].slot == o.slot ==> t[k].to.Some?;
    assert CloseWindows(t, c).0 == t;
  }

  /** The outcome of a rotation: no failure, or exactly this one, with the windows left as said. */
  ghost predicate RotationEndsWith(m: State, m': State, failure: Option<FailureKind>, sourceHeight: int,
                                   eventId: Option<int>,
                                   slot: int, b: int)
  {
    if failure.None? then m'.failures == m.failures && m'.failed == m.failed
    else
      && m'.failures == m.failures + {Failure(failure.value, sourceHeight, eventId, None)}
      && m'.failed == m.failed + 1
      && LeavesAfterFailure(m.windows, m'.windows, slot, b,
                            failure.value.TemporalWindowConflict? && !SlotOpenFrom(m.windows, slot, b))
  }

  lemma ClosedRotationEnds(m: State, c: Closing, o: Opening, sourceHeight: int)
    requires Valid(m.windows) && c.slot == o.slot && c.to == o.from && CloseWindows(m.windows, c).1.Closed?
    requires !HasWindow(m.windows, o.slot, o.address, o.from)
    ensures RotationEndsWith(m, Open(Close(m, c, sourceHeight), o, sourceHeight), RotationFailure(m.windows, c, o),
                             sourceHeight, o.origin.EventId(), o.slot, o.from)
  {
    var u := CloseWindows(m.windows, c).0;
    CloseOutcomeExactly(m.windows, c);
    CloseWindowsEvolves(m.windows, c);
    OpeningOutcomeExactly(u, o);
    ClosingAddsNoCoverage(m.windows, c, o.slot, o.address, o.from);
    ConflictsSurviveClosing(m.windows, c, o);
    if !OpenWindow(u, o).1.Ok() {
      FailedOpeningLeaves(m.windows, c, o);
    }
  }

  lemma RotateEnds(m: State, c: Closing, o: Opening, sourceHeight: int)
    requires Valid(m.windows) && c.slot == o.slot && c.to == o.from && c.origin == o.origin
    ensures RotationEndsWith(m, Rotate(m, c, o, sourceHeight), RotationFailure(m.windows, c, o), sourceHeight,
                             o.origin.EventId(), o.slot, o.from)
  {
    SameWindowExactly(m.windows, o);
    if HasWindow(m.windows, o.slot, o.address, o.from) {
    } else if CloseWindows(m.windows, c).1.Closed? {
      ClosedRotationEnds(m, c, o, sourceHeight);
    } else {
      CloseOutcomeExactly(m.windows, c);
    }
  }

  /** A rotation fails exactly for these reasons, records exactly that failure, and leaves the windows as said. */
  lemma RotationFailsExactly(m: State, r: Rotation, height: int)
    requires Valid(m.windows) && (r.status.Applied? || r.status.ImmediateApplied?)
    requires r.newAddress.HexAddress? && NormalizeOptionalAddress(r.oldAddress).Some? && RotationUpdateHeight(r).Some?
    ensures var update := r.effectiveHeight.Or(r.appliedHeight).value;
            var closing := RotationClosing(r, NormalizeOptionalAddress(r.oldAddress).value, update);
            var opening := RotationOpening(r, r.newAddress.address, update);
            RotationEndsWith(m, Apply(m, RotationStep(r), height), RotationFailure(m.windows, closing, opening),
                             r.appliedHeight.Or(r.effectiveHeight).value, r.appliedEventId, r.slot, update + 2)
  {
    var update := RotationUpdateHeight(r).value;
    RotateEnds(m, RotationClosing(r, NormalizeOptionalAddress(r.oldAddress).value, update),
               RotationOpening(r, r.newAddress.address, update), RotationSourceHeight(r, height));
  }

  lemma SameWindowExactly(t: Table, o: Opening)
    ensures FindWindow(t, SameWindow(o)).Some? <==> HasWindow(t, o.slot, o.address, o.from)
  {
    if HasWindow(t, o.slot, o.address, o.from) {
      var i :| 0 <= i < |t| && t[i].slot == o.slot && t[i].address == o.address && Covers(t[i], o.from);
      assert Matches(t[i], SameWindow(o));
    }
  }

  lemma CloseThenOpen(t: Table, c: Closing, o: Opening)
    requires Valid(t) && c.slot == o.slot && c.to == o.from
    requires CloseWindows(t, c).1.Closed? && !HasWindow(t, o.slot, o.address, o.from)
    ensures var u := CloseWindows(t, c).0;
            OpenWindow(u, o).1.Ok() ==>
              && HasWindow(OpenWindow(u, o).0, o.slot, o.address, o.from)
              && |OpenWindow(u, o).0| == |t| + 1
              && forall i :: 0 <= i < |t| && t[i].slot == o.slot ==>
                 OpenWindow(u, o).0[i].to == t[i].to.Or(Some(o.from))
  {
    var u := CloseWindows(t, c).0;
    CloseWindowsEvolves(t, c);
    ClosingTakesEffect(t, c);
    OpeningOutcomeExactly(u, o);
    ClosingAddsNoCoverage(t, c, o.slot, o.address, o.from);
    if OpenWindow(u, o).1.Ok() {
      OpeningTakesEffect(u, o);
    }
  }

  lemma ClosingAddsNoCoverage(t: Table, c: Closing, slot: int, address: Address, height: int)
    requires Valid(t)
    ensures HasWindow(CloseWindows(t, c).0, slot, address, height) ==> HasWindow(t, slot, address, height)
  {
    var u := CloseWindows(t, c).0;
    EndSelectedShape(t, c, 0, 0);
    if HasWindow(u, slot, address, height) {
      var i :| 0 <= i < |u| && u[i].slot == slot && u[i].address == address && Covers(u[i], height);
      assert t[i].slot == slot && t[i].address == address && Covers(t[i], height);
    }
  }

  // ---- heights without rows ----

  /** Heights projected while they have no rows change no window, however many follow: an event whose row
      arrives after its height was projected is never made up for. */
  lemma {:induction false} QuietHeightsKeepWindows(m: State, sources: seq<HeightSource>)
    requires forall i :: 0 <= i < |sources| ==> sources[i].lifecycle == [] && sources[i].rotations == []
    ensures ProjectRange(m, sources).windows == m.windows
  {
    if sources != [] {
      var n := |sources| - 1;
      QuietHeightsKeepWindows(m, sources[..n]);
      assert sources[n].Steps() == [];
    }
  }
}
