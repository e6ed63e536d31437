/** The whole window table, failures and counters after every opening, closing, lifecycle event and rotation, told from
    the rows alone; no invariant of the table is needed. */
module WindowSteps {
  import opened Wrappers
  import opened TemporalMap

  predicate CoversAt(w: Window, height: int) {
    w.from <= height && (w.to == None || height < w.to.value)
  }

  predicate IsSame(w: Window, slot: int, address: Address, height: int) {
    w.slot == slot && w.address == address && CoversAt(w, height)
  }

  /** An open window of the slot, and of the address if one is named. */
  predicate IsOpen(w: Window, slot: int, address: Option<Address>) {
    w.slot == slot && w.to == None && (address == None || w.address == address.value)
  }

  ghost function OpenRows(t: Table, from: nat, slot: int, address: Option<Address>): set<nat> {
    set i: nat | from <= i < |t| && IsOpen(t[i], slot, address)
  }

  // ---- ending ----

  lemma OpenRowsNext(t: Table, i: nat, slot: int, address: Option<Address>)
    requires i < |t|
    ensures OpenRows(t, i, slot, address) ==
            OpenRows(t, i + 1, slot, address) + if IsOpen(t[i], slot, address) then {i} else {}
  {
  }

  function NamedBy(target: CloseTarget): Option<Address> {
    if target.Named? then Some(target.address) else None
  }

  /** From row `i` on, open windows of the slot are ended one by one, until one starts too late. */
  ghost predicate EndsFrom(t: Table, t': Table, i: nat, c: Closing, outcome: CloseOutcome, written: nat) {
    var address := NamedBy(c.target);
    && |t'| == |t| && i <= |t|
    && (forall j :: 0 <= j < i ==> t'[j] == t[j])
    && if forall j :: i <= j < |t| && IsOpen(t[j], c.slot, address) ==> t[j].from < c.to
       then
         && outcome == Closed(written + |OpenRows(t, i, c.slot, address)|)
         && forall j :: i <= j < |t| ==> IsEndedRow(t[j], t'[j], c, true)
       else
         && outcome == HeightInvalid
         && exists k :: StopsAt(t, t', i, k, c)
  }

  predicate IsEndedRow(w: Window, w': Window, c: Closing, ends: bool) {
    w' == if ends && IsOpen(w, c.slot, NamedBy(c.target)) then w.(to := Some(c.to), closedBy := Some(c.origin)) else w
  }

  ghost predicate StopsAt(t: Table, t': Table, i: nat, k: int, c: Closing) {
    && i <= k < |t| == |t'| && IsOpen(t[k], c.slot, NamedBy(c.target)) && c.to <= t[k].from
    && (forall j :: i <= j < k && IsOpen(t[j], c.slot, NamedBy(c.target)) ==> t[j].from < c.to)
    && forall j :: i <= j < |t| ==> IsEndedRow(t[j], t'[j], c, j < k)
  }

  lemma {:induction false} EndingExactly(t: Table, c: Closing, i: nat, written: nat)
    requires i <= |t|
    ensures var (t', outcome) := EndSelected(t, c, i, written); EndsFrom(t, t', i, c, outcome, written)
    decreases |t| - i
  {
    var address := NamedBy(c.target);
    if i == |t| {
      assert OpenRows(t, i, c.slot, address) == {};
    } else {
      OpenRowsNext(t, i, c.slot, address);
      if !Selected(t[i], c) {
        EndingExactly(t, c, i + 1, written);
        SkippedRow(t, c, i, written);
      } else if c.to <= t[i].from {
        assert StopsAt(t, t, i, i, c);
      } else {
        EndingExactly(t[i := Ended(t[i], c)], c, i + 1, written + 1);
        EndedRow(t, c, i, written);
      }
    }
  }

  lemma SkippedRow(t: Table, c: Closing, i: nat, written: nat)
    requires i < |t| && !Selected(t[i], c)
    requires var (t', outcome) := EndSelected(t, c, i + 1, written); EndsFrom(t, t', i + 1, c, outcome, written)
    ensures var (t', outcome) := EndSelected(t, c, i, written); EndsFrom(t, t', i, c, outcome, written)
  {
    var (t', outcome) := EndSelected(t, c, i + 1, written);
    OpenRowsNext(t, i, c.slot, NamedBy(c.target));
    assert !IsOpen(t[i], c.slot, NamedBy(c.target));
    if outcome == HeightInvalid {
      var k :| StopsAt(t, t', i + 1, k, c);
      assert StopsAt(t, t', i, k, c);
    }
  }

  lemma EndedStops(t: Table, u: Table, t': Table, c: Closing, i: nat, k: int)
    requires i < |t| && IsOpen(t[i], c.slot, NamedBy(c.target)) && t[i].from < c.to
    requires u == t[i := t[i].(to := Some(c.to), closedBy := Some(c.origin))]
    requires StopsAt(u, t', i + 1, k, c) && t'[i] == u[i]
    ensures StopsAt(t, t', i, k, c)
  {
    forall j | i <= j < |t|
      ensures IsEndedRow(t[j], t'[j], c, j < k)
    {
      assert j > i ==> IsEndedRow(u[j], t'[j], c, j < k);
    }
  }

  lemma EndedRow(t: Table, c: Closing, i: nat, written: nat)
    requires i < |t| && Selected(t[i], c) && t[i].from < c.to
    requires var u := t[i := Ended(t[i], c)]; var (t', outcome) := EndSelected(u, c, i + 1, written + 1);
             EndsFrom(u, t', i + 1, c, outcome, written + 1)
    ensures var (t', outcome) := EndSelected(t, c, i, written); EndsFrom(t, t', i, c, outcome, written)
  {
    var u := t[i := Ended(t[i], c)];
    var (t', outcome) := EndSelected(u, c, i + 1, written + 1);
    OpenRowsNext(t, i, c.slot, NamedBy(c.target));
    assert IsOpen(t[i], c.slot, NamedBy(c.target));
    assert OpenRows(u, i + 1, c.slot, NamedBy(c.target)) == OpenRows(t, i + 1, c.slot, NamedBy(c.target));
    assert t'[i] == u[i];
    if outcome == HeightInvalid {
      var k :| StopsAt(u, t', i + 1, k, c);
      EndedStops(t, u, t', c, i, k);
    } else {
      forall j | i <= j < |t|
        ensures IsEndedRow(t[j], t'[j], c, true)
      {
        assert j > i ==> IsEndedRow(u[j], t'[j], c, true);
      }
    }
  }

  // ---- closing and opening ----

  /** The table and the outcome of closing. Several open windows are ambiguous when the old address is not known; no
      open window is a failure only when one is required. */
  ghost predicate IsClosed(t: Table, t': Table, c: Closing, outcome: CloseOutcome) {
    var open := OpenRows(t, 0, c.slot, NamedBy(c.target));
    if |open| > 1 && c.target.Unnamed? then t' == t && outcome == AmbiguousWindow
    else if open == {} then t' == t && outcome == (if c.requireWindow then MissingWindow else Closed(0))
    else EndsFrom(t, t', 0, c, outcome, 0)
  }

  lemma {:induction false} CountExactly(t: Table, c: Closing, i: nat)
    requires i <= |t|
    ensures CountSelected(t[i..], c) == |OpenRows(t, i, c.slot, NamedBy(c.target))|
    decreases |t| - i
  {
    if i == |t| {
      assert OpenRows(t, i, c.slot, NamedBy(c.target)) == {};
    } else {
      CountExactly(t, c, i + 1);
      OpenRowsNext(t, i, c.slot, NamedBy(c.target));
      assert t[i..][1..] == t[i + 1..];
      assert i !in OpenRows(t, i + 1, c.slot, NamedBy(c.target));
    }
  }

  lemma ClosingExactly(t: Table, c: Closing)
    ensures var (t', outcome) := CloseWindows(t, c); IsClosed(t, t', c, outcome)
  {
    CountExactly(t, c, 0);
    assert t[0..] == t;
    EndingExactly(t, c, 0, 0);
  }

  /** A window whose operator, power and update height are replaced by those given, and by nothing where none is. */
  predicate IsRefreshed(w: Window, w': Window, operator: Option<string>, power: Option<int>, update: Option<int>) {
    w' == w.(operator := if operator == None then w.operator else operator,
             power := if power == None then w.power else power,
             updateHeight := if update == None then w.updateHeight else update)
  }

  ghost predicate IsRefresh(t: Table, t': Table, i: nat, o: Opening) {
    && i < |t| == |t'| && IsSame(t[i], o.slot, o.address, o.from)
    && (forall j :: 0 <= j < |t| && IsSame(t[j], o.slot, o.address, o.from) ==> t[j].from <= t[i].from)
    && t' == t[i := t'[i]] && IsRefreshed(t[i], t'[i], o.operator, o.power, o.updateHeight)
  }

  ghost predicate IsTaken(t: Table, o: Opening) {
    exists i :: 0 <= i < |t| && t[i].slot != o.slot && t[i].address == o.address && CoversAt(t[i], o.from)
  }

  /** The slot's open windows are ended at the opening height. */
  ghost predicate EndsAll(t: Table, t': Table, o: Opening) {
    && |t'| == |t|
    && forall i :: 0 <= i < |t| ==>
         t'[i] == if t[i].slot == o.slot && t[i].to == None then t[i].(to := Some(o.from), closedBy := Some(o.origin))
                  else t[i]
  }

  /** One that starts too late keeps itself and all behind it from being ended. */
  ghost predicate EndsUntil(t: Table, t': Table, k: nat, o: Opening) {
    && k < |t| == |t'| && t[k].slot == o.slot && t[k].to == None && o.from <= t[k].from
    && (forall i :: 0 <= i < k && t[i].slot == o.slot && t[i].to == None ==> t[i].from < o.from)
    && forall i :: 0 <= i < |t| ==>
         t'[i] == if i < k && t[i].slot == o.slot && t[i].to == None
                  then t[i].(to := Some(o.from), closedBy := Some(o.origin))
                  else t[i]
  }

  /** The table and the outcome of an opening. */
  ghost predicate IsOpened(t: Table, t': Table, o: Opening, outcome: OpenOutcome) {
    if exists i :: 0 <= i < |t| && IsSame(t[i], o.slot, o.address, o.from)
    then outcome == Refreshed && exists i :: IsRefresh(t, t', i, o)
    else if exists i :: 0 <= i < |t| && t[i].slot == o.slot && t[i].to == None && o.from <= t[i].from
    then outcome == SlotConflict && exists k :: EndsUntil(t, t', k, o)
    else if IsTaken(t, o) then outcome == AddressConflict && EndsAll(t, t', o)
    else
      && outcome == Created && |t'| == |t| + 1 && EndsAll(t, t'[..|t|], o)
      && t'[|t|] == Window(o.slot, o.operator, o.address, o.power, o.updateHeight, o.from, None, o.origin, None)
  }

  lemma EndingForExactly(t: Table, o: Opening)
    ensures var (t', outcome) := EndSelected(t, EndingFor(o), 0, 0);
            if exists i :: 0 <= i < |t| && t[i].slot == o.slot && t[i].to == None && o.from <= t[i].from
            then outcome == HeightInvalid && exists k :: EndsUntil(t, t', k, o)
            else outcome.Closed? && EndsAll(t, t', o)
  {
    var c := EndingFor(o);
    EndingExactly(t, c, 0, 0);
    var (t', outcome) := EndSelected(t, c, 0, 0);
    assert forall i :: 0 <= i < |t| ==> (IsOpen(t[i], c.slot, None) <==> t[i].slot == o.slot && t[i].to == None);
    if outcome == HeightInvalid {
      var k :| StopsAt(t, t', 0, k, c);
      assert EndsUntil(t, t', k, o);
    }
  }

  lemma OpeningExactly(t: Table, o: Opening)
    ensures var (t', outcome) := OpenWindow(t, o); IsOpened(t, t', o, outcome)
  {
    var (t', outcome) := OpenWindow(t, o);
    var same := FindWindow(t, SameWindow(o));
    assert forall i :: 0 <= i < |t| ==> (Matches(t[i], SameWindow(o)) <==> IsSame(t[i], o.slot, o.address, o.from));
    if same.Some? {
      assert IsRefresh(t, t', same.value, o);
    } else {
      EndingForExactly(t, o);
      if EndSelected(t, EndingFor(o), 0, 0).1.Closed? {
        TakenExactly(t, o);
      }
    }
  }

  lemma TakenExactly(t: Table, o: Opening)
    requires EndSelected(t, EndingFor(o), 0, 0).1.Closed? && EndsAll(t, EndSelected(t, EndingFor(o), 0, 0).0, o)
    ensures AddressTaken(EndSelected(t, EndingFor(o), 0, 0).0, o) <==> IsTaken(t, o)
  {
    var t' := EndSelected(t, EndingFor(o), 0, 0).0;
    assert forall i :: 0 <= i < |t| && t[i].slot != o.slot ==> t'[i] == t[i];
    assert forall i :: 0 <= i < |t'| ==> t'[i].slot == t[i].slot;
    var q := Query(None, Some(o.address), o.from);
    forall i | 0 <= i < |t| && t[i].slot != o.slot
      ensures Matches(t'[i], q) <==> t[i].address == o.address && CoversAt(t[i], o.from)
    {
    }
  }

  // ---- the state ----

  /** Nothing but one more failure. */
  predicate OnlyFails(m: State, m': State, f: Failure) {
    && m'.windows == m.windows && m'.written == m.written
    && m'.failures == m.failures + {f} && m'.failed == m.failed + 1
  }

  /** The state after an opening: a created window is counted, a conflict is recorded. */
  ghost predicate Opened(m: State, m': State, o: Opening, sourceHeight: int, eventId: Option<int>) {
    exists outcome :: IsOpened(m.windows, m'.windows, o, outcome)
      && m'.written == m.written + (if outcome == Created then 1 else 0)
      && if outcome == Created || outcome == Refreshed then m'.failures == m.failures && m'.failed == m.failed
         else
           && m'.failures == m.failures + {Failure(TemporalWindowConflict, sourceHeight, eventId, None)}
           && m'.failed == m.failed + 1
  }

  function FailureOf(outcome: CloseOutcome): FailureKind {
    match outcome
    case MissingWindow => MissingActivationWindow
    case AmbiguousWindow => TemporalWindowAmbiguous
    case _ => EffectiveHeightInvalid
  }

  /** The state after a closing: ended windows are counted, a refusal is recorded. */
  ghost predicate WasClosed(m: State, m': State, c: Closing, sourceHeight: int, eventId: Option<int>) {
    exists outcome :: IsClosed(m.windows, m'.windows, c, outcome)
      && if outcome.Closed?
         then m'.written == m.written + outcome.written && m'.failures == m.failures && m'.failed == m.failed
         else
           && m'.written == m.written && m'.failed == m.failed + 1
           && m'.failures == m.failures + {Failure(FailureOf(outcome), sourceHeight, eventId, None)}
  }

  lemma OpenExactly(m: State, o: Opening, sourceHeight: int)
    ensures Opened(m, Open(m, o, sourceHeight), o, sourceHeight, o.origin.EventId())
  {
    OpeningExactly(m.windows, o);
    assert IsOpened(m.windows, Open(m, o, sourceHeight).windows, o, OpenWindow(m.windows, o).1);
  }

  lemma CloseExactly(m: State, c: Closing, sourceHeight: int)
    ensures WasClosed(m, Close(m, c, sourceHeight), c, sourceHeight, c.origin.EventId())
  {
    ClosingExactly(m.windows, c);
    assert IsClosed(m.windows, Close(m, c, sourceHeight).windows, c, CloseWindows(m.windows, c).1);
  }

  /** What a lifecycle event does: a registration nothing, an activation opens the slot's window and an inactivation,
      suspension or removal ends it, both two heights after the update; anything malformed is recorded. */
  lemma LifecycleExactly(m: State, e: LifecycleEvent)
    ensures var m' := ProjectLifecycle(m, e);
            var from := (if e.effectiveHeight == None then e.height else e.effectiveHeight.value) + 2;
            var origin := FromLifecycle(e.sourceEventId, e.id); var event := Some(e.sourceEventId);
            if e.slot == None then OnlyFails(m, m', Failure(InvalidSlotId, e.height, event, Some(e.eventType)))
            else
              match e.eventType
              case Registered => m' == m
              case Activated =>
                if !e.address.HexAddress?
                then OnlyFails(m, m', Failure(InvalidConsensusAddress, e.height, event, Some(Activated)))
                else
                  Opened(m, m',
                         Opening(e.slot.value, e.operator, e.address.address, e.power, Some(from - 2), from, origin),
                         e.height, event)
              case UnknownType => OnlyFails(m, m', Failure(UnknownSemanticType, e.height, event, Some(UnknownType)))
              case _ => WasClosed(m, m', Closing(e.slot.value, AnyWindow, from, origin, false), e.height, event)
  {
    if e.slot.Some? && e.eventType.Activated? && e.address.HexAddress? {
      OpenExactly(m, ActivationOf(e, e.slot.value, e.address.address), e.height);
    } else if e.slot.Some? && !e.eventType.Activated? {
      CloseExactly(m, DeactivationOf(e, e.slot.value), e.height);
    }
  }

  function FirstOf(a: Option<int>, b: Option<int>, otherwise: int): int {
    if a != None then a.value else if b != None then b.value else otherwise
  }

  /** What a rotation in force does: it refreshes the new address's window if that is there already, and otherwise
      closes the old address's window and, if that succeeds, opens the new one. */
  ghost predicate IsRotated(m: State, m': State, closing: Closing, opening: Opening, sourceHeight: int,
                            eventId: Option<int>)
  {
    if exists i :: 0 <= i < |m.windows| && IsSame(m.windows[i], opening.slot, opening.address, opening.from)
    then Opened(m, m', opening, sourceHeight, eventId)
    else
      exists closed :: WasClosed(m, closed, closing, sourceHeight, eventId)
        && if closed.failed == m.failed then Opened(closed, m', opening, sourceHeight, eventId) else m' == closed
  }

  lemma RotateExactly(m: State, closing: Closing, opening: Opening, sourceHeight: int)
    requires opening.origin.EventId() == closing.origin.EventId()
    ensures IsRotated(m, Rotate(m, closing, opening, sourceHeight), closing, opening, sourceHeight,
                      opening.origin.EventId())
  {
    var o := opening;
    assert forall i :: 0 <= i < |m.windows| ==>
             (Matches(m.windows[i], SameWindow(o)) <==> IsSame(m.windows[i], o.slot, o.address, o.from));
    OpenExactly(m, opening, sourceHeight);
    CloseExactly(m, closing, sourceHeight);
    var closed := Close(m, closing, sourceHeight);
    OpenExactly(closed, opening, sourceHeight);
  }

  /** What an applied rotation with well-formed addresses and a height rotates. */
  lemma AppliedExactly(m: State, r: Rotation, height: int, update: int)
    requires (r.status.Applied? || r.status.ImmediateApplied?) && r.newAddress.HexAddress?
    requires !r.oldAddress.MalformedAddress? && RotationUpdateHeight(r) == Some(update)
    ensures var origin := FromRotation(r.appliedEventId, r.id); var named := r.oldAddress.HexAddress?;
            IsRotated(m, ProjectRotation(m, r, height),
                      Closing(r.slot, if named then Named(r.oldAddress.address) else Unnamed, update + 2, origin,
                              !named),
                      Opening(r.slot, r.operator, r.newAddress.address, r.power, Some(update), update + 2, origin),
                      FirstOf(r.appliedHeight, r.effectiveHeight, height), r.appliedEventId)
  {
    RotateExactly(m, RotationClosing(r, NormalizeOptionalAddress(r.oldAddress).value, update),
                  RotationOpening(r, r.newAddress.address, update), RotationSourceHeight(r, height));
  }

  /** Requested and cancelled rotations do nothing; applied ones rotate two heights after the update, unless an address
      is malformed, the new one is missing, or no height says when. */
  lemma RotationExactly(m: State, r: Rotation, height: int)
    ensures var m' := ProjectRotation(m, r, height);
            var origin := FromRotation(r.appliedEventId, r.id);
            var sourceHeight := FirstOf(r.appliedHeight, r.effectiveHeight, height);
            match r.status
            case Requested => m' == m
            case Cancelled => m' == m
            case UnknownStatus =>
              OnlyFails(m, m', Failure(UnknownSemanticType, FirstOf(r.appliedHeight, r.cancelledHeight, height),
                                       r.appliedEventId, None))
            case _ =>
              if !r.newAddress.HexAddress? || r.oldAddress.MalformedAddress?
              then OnlyFails(m, m', Failure(InvalidConsensusAddress, sourceHeight, r.appliedEventId, None))
              else if r.effectiveHeight == None && r.appliedHeight == None
              then OnlyFails(m, m', Failure(EffectiveHeightInvalid, sourceHeight, r.appliedEventId, None))
              else
                var update := FirstOf(r.effectiveHeight, r.appliedHeight, 0);
                var named := r.oldAddress.HexAddress?;
                IsRotated(m, m',
                          Closing(r.slot, if named then Named(r.oldAddress.address) else Unnamed, update + 2, origin,
                                  !named),
                          Opening(r.slot, r.operator, r.newAddress.address, r.power, Some(update), update + 2, origin),
                          sourceHeight, r.appliedEventId)
  {
    if (r.status.Applied? || r.status.ImmediateApplied?) && r.newAddress.HexAddress?
       && !r.oldAddress.MalformedAddress? && RotationUpdateHeight(r).Some? {
      AppliedExactly(m, r, height, RotationUpdateHeight(r).value);
    }
  }

  // ---- a height ----

  /** A height applies its lifecycle events and then its rotations, each in order, from its own failures cleared and
      the counters at zero. */
  ghost predicate IsProjected(m: State, states: seq<State>, s: HeightSource) {
    && |states| == |s.lifecycle| + |s.rotations| + 1
    && states[0].windows == m.windows && states[0].written == 0 && states[0].failed == 0
    && (forall f :: f in states[0].failures <==> f in m.failures && f.sourceHeight != s.height)
    && (forall i :: 0 <= i < |s.lifecycle| ==> states[i + 1] == ProjectLifecycle(states[i], s.lifecycle[i]))
    && (forall i :: |s.lifecycle| <= i < |s.lifecycle| + |s.rotations| ==>
          states[i + 1] == ProjectRotation(states[i], s.rotations[i - |s.lifecycle|], s.height))
  }

  lemma {:induction false} StatesOf(m: State, steps: seq<Step>, height: int) returns (states: seq<State>)
    ensures |states| == |steps| + 1 && states[0] == m && states[|steps|] == ApplyAll(m, steps, height)
    ensures forall i :: 0 <= i < |steps| ==> states[i + 1] == Apply(states[i], steps[i], height)
  {
    if steps == [] {
      states := [m];
    } else {
      var n := |steps| - 1;
      states := StatesOf(m, steps[..n], height);
      states := states + [ApplyAll(m, steps, height)];
    }
  }

  lemma HeightExactly(m: State, s: HeightSource) returns (states: seq<State>)
    ensures IsProjected(m, states, s) && states[|states| - 1] == ProjectHeight(m, s)
  {
    states := StatesOf(Prepare(m, s.height), s.Steps(), s.height);
    assert forall i :: 0 <= i < |s.lifecycle| ==> s.Steps()[i] == LifecycleStep(s.lifecycle[i]);
    forall i | |s.lifecycle| <= i < |s.lifecycle| + |s.rotations|
      ensures states[i + 1] == ProjectRotation(states[i], s.rotations[i - |s.lifecycle|], s.height)
    {
      assert s.Steps()[i] == RotationStep(s.rotations[i - |s.lifecycle|]);
    }
  }
}
