/** The temporal map as the projection runs it: tables updated in place, one height at a time. */
module TemporalMapProjection {
  import opened Wrappers
  import opened TemporalMap

  lemma ApplyOneMore(m: State, steps: seq<Step>, i: nat, height: int)
    requires i < |steps|
    ensures ApplyAll(m, steps[..i + 1], height) == Apply(ApplyAll(m, steps[..i], height), steps[i], height)
  {
    assert steps[..i + 1][..i] == steps[..i];
  }

  /** The least height its upstream projections have reached; a missing cursor row counts as zero. */
  method MinUpstreamCursorHeight(cursors: seq<Option<int>>) returns (height: int)
    ensures forall i :: 0 <= i < |cursors| ==> height <= cursors[i].GetOr(0)
    ensures if cursors == [] then height == 0 else exists i :: 0 <= i < |cursors| && height == cursors[i].GetOr(0)
  {
    var min: Option<int> := None;
    for i := 0 to |cursors|
      invariant min.None? <==> i == 0
      invariant min.Some? ==> forall k :: 0 <= k < i ==> min.value <= cursors[k].GetOr(0)
      invariant min.Some? ==> exists k :: 0 <= k < i && min.value == cursors[k].GetOr(0)
    {
      var cursor := cursors[i].GetOr(0);
      if min.None? || cursor < min.value {
        min := Some(cursor);
      }
    }
    return min.GetOr(0);
  }

  class Projection {
    var windows: Table
    var failures: set<Failure>
    var written: nat
    var failed: nat
    var cursor: int

    constructor ()
      ensures Current() == State([], {}, 0, 0) && cursor == 0
    {
      windows, failures, written, failed, cursor := [], {}, 0, 0, 0;
    }

    function Current(): State
      reads this
    {
      State(windows, failures, written, failed)
    }

    method CreateFailure(f: Failure)
      modifies this
      ensures Current() == Fail(old(Current()), f) && cursor == old(cursor)
    {
      failures := failures + {f};
      failed := failed + 1;
    }

    /** The loop over the open windows a closing selects. */
    method EndSelectedWindows(c: Closing) returns (outcome: CloseOutcome)
      modifies this`windows
      ensures (windows, outcome) == EndSelected(old(windows), c, 0, 0)
    {
      var i, closed := 0, 0;
      while i < |windows|
        invariant i <= |windows|
        invariant EndSelected(windows, c, i, closed) == EndSelected(old(windows), c, 0, 0)
      {
        if Selected(windows[i], c) {
          if c.to <= windows[i].from {
            return HeightInvalid;
          }
          windows := windows[i := Ended(windows[i], c)];
          closed := closed + 1;
        }
        i := i + 1;
      }
      return Closed(closed);
    }

    method CloseActiveWindows(c: Closing, sourceHeight: int) returns (ok: bool)
      modifies this
      ensures Current() == Close(old(Current()), c, sourceHeight) && cursor == old(cursor)
      ensures ok == CloseWindows(old(windows), c).1.Closed?
    {
      var count := CountSelected(windows, c);
      var outcome;
      if c.target.Unnamed? && count > 1 {
        outcome := AmbiguousWindow;
      } else if count == 0 {
        outcome := if c.requireWindow then MissingWindow else Closed(0);
      } else {
        outcome := EndSelectedWindows(c);
      }
      if outcome.Closed? {
        written := written + outcome.written;
      } else {
        CreateFailure(Failure(CloseFailure(outcome), sourceHeight, c.origin.EventId(), None));
      }
      return outcome.Closed?;
    }

    method OpenActiveWindow(o: Opening, sourceHeight: int)
      modifies this
      ensures Current() == Open(old(Current()), o, sourceHeight) && cursor == old(cursor)
    {
      var same := FindWindow(windows, SameWindow(o));
      if same.Some? {
        windows := windows[same.value := Refresh(windows[same.value], o)];
        return;
      }
      var ended := EndSelectedWindows(EndingFor(o));
      if !ended.Closed? || AddressTaken(windows, o) {
        CreateFailure(Failure(TemporalWindowConflict, sourceHeight, o.origin.EventId(), None));
        return;
      }
      windows := windows + [NewWindow(o)];
      written := written + 1;
    }

    method ProjectLifecycleEvent(e: LifecycleEvent)
      modifies this
      ensures Current() == ProjectLifecycle(old(Current()), e) && cursor == old(cursor)
    {
      if e.slot.None? {
        CreateFailure(Failure(InvalidSlotId, e.height, Some(e.sourceEventId), Some(e.eventType)));
        return;
      }
      match e.eventType {
        case Registered =>
        case Activated =>
          var address := NormalizeAddress(e.address);
          if address.None? {
            CreateFailure(Failure(InvalidConsensusAddress, e.height, Some(e.sourceEventId), Some(e.eventType)));
          } else {
            OpenActiveWindow(ActivationOf(e, e.slot.value, address.value), e.height);
          }
        case UnknownType =>
          CreateFailure(Failure(UnknownSemanticType, e.height, Some(e.sourceEventId), Some(e.eventType)));
        case _ =>
          var _ := CloseActiveWindows(DeactivationOf(e, e.slot.value), e.height);
      }
    }

    method ProjectKeyRotation(r: Rotation, height: int)
      modifies this
      ensures Current() == ProjectRotation(old(Current()), r, height) && cursor == old(cursor)
    {
      if r.status.Requested? || r.status.Cancelled? {
        return;
      }
      if r.status.UnknownStatus? {
        CreateFailure(Failure(UnknownSemanticType, r.appliedHeight.Or(r.cancelledHeight).GetOr(height),
                              r.appliedEventId, None));
        return;
      }
      var sourceHeight := RotationSourceHeight(r, height);
      var newAddress := NormalizeAddress(r.newAddress);
      var oldAddress := NormalizeOptionalAddress(r.oldAddress);
      if newAddress.None? || oldAddress.None? {
        CreateFailure(Failure(InvalidConsensusAddress, sourceHeight, r.appliedEventId, None));
        return;
      }
      var update := RotationUpdateHeight(r);
      if update.None? {
        CreateFailure(Failure(EffectiveHeightInvalid, sourceHeight, r.appliedEventId, None));
        return;
      }
      var opening := RotationOpening(r, newAddress.value, update.value);
      if FindWindow(windows, SameWindow(opening)).None? {
        var ok := CloseActiveWindows(RotationClosing(r, oldAddress.value, update.value), sourceHeight);
        if !ok {
          return;
        }
      }
      OpenActiveWindow(opening, sourceHeight);
    }

    method ApplyLifecycle(s: HeightSource)
      modifies this
      ensures Current() == ApplyAll(old(Current()), s.Steps()[..|s.lifecycle|], s.height)
      ensures cursor == old(cursor)
    {
      ghost var start, steps := Current(), s.Steps();
      var i := 0;
      while i < |s.lifecycle|
        invariant i <= |s.lifecycle|
        invariant Current() == ApplyAll(start, steps[..i], s.height) && cursor == old(cursor)
      {
        ApplyOneMore(start, steps, i, s.height);
        ProjectLifecycleEvent(s.lifecycle[i]);
        i := i + 1;
      }
    }

    method ApplyRotations(s: HeightSource, ghost start: State)
      requires Current() == ApplyAll(start, s.Steps()[..|s.lifecycle|], s.height)
      modifies this
      ensures Current() == ApplyAll(start, s.Steps(), s.height)
      ensures cursor == old(cursor)
    {
      ghost var steps := s.Steps();
      var j := 0;
      while j < |s.rotations|
        invariant j <= |s.rotations|
        invariant Current() == ApplyAll(start, steps[..|s.lifecycle| + j], s.height) && cursor == old(cursor)
      {
        ApplyOneMore(start, steps, |s.lifecycle| + j, s.height);
        ProjectKeyRotation(s.rotations[j], s.height);
        j := j + 1;
      }
      assert steps[..|s.lifecycle| + j] == steps;
    }

    /** One transaction: clear the height's failures, apply its rows in order, move the cursor. */
    method ProjectAtHeight(s: HeightSource)
      modifies this
      ensures Current() == ProjectHeight(old(Current()), s)
      ensures cursor == s.height
    {
      failures := set f | f in failures && f.sourceHeight != s.height;
      written, failed := 0, 0;
      ghost var start := Current();
      ApplyLifecycle(s);
      ApplyRotations(s, start);
      cursor := s.height;
    }

    method SeedGenesisSlot(g: GenesisSlot)
      modifies this
      ensures Current() == SeedSlot(old(Current()), g) && cursor == old(cursor)
    {
      if !g.active {
        return;
      }
      if g.slot.None? {
        CreateFailure(Failure(GenesisMalformed, GENESIS_HEIGHT, None, None));
        return;
      }
      var address := NormalizeAddress(g.address);
      if address.None? {
        CreateFailure(Failure(InvalidConsensusAddress, GENESIS_HEIGHT, None, None));
        return;
      }
      OpenActiveWindow(Opening(g.slot.value, g.operator, address.value, g.power, None, 1, Genesis), GENESIS_HEIGHT);
    }

    method SeedSlots(slots: seq<GenesisSlot>)
      modifies this
      ensures Current() == SeedAll(Prepare(old(Current()), GENESIS_HEIGHT), slots)
      ensures cursor == 1
    {
      failures := set f | f in failures && f.sourceHeight != GENESIS_HEIGHT;
      written, failed := 0, 0;
      ghost var start := Current();
      for i := 0 to |slots|
        invariant Current() == SeedAll(start, slots[..i])
      {
        SeedGenesisSlot(slots[i]);
        assert slots[..i + 1][..i] == slots[..i];
      }
      assert slots[..|slots|] == slots;
      cursor := 1;
    }

    /** Seeds the genesis validator set into the table as it stands and leaves the cursor at height 1; a genesis
        that cannot be read is recorded and stops the run. */
    method SeedGenesis(genesis: GenesisAnswer) returns (ok: bool)
      modifies this
      ensures Current() == SeedFrom(old(Current()), genesis)
      ensures ok == genesis.Slots?
      ensures cursor == if ok then 1 else old(cursor)
    {
      match genesis {
        case Unavailable =>
          failures := failures + {Failure(GenesisUnavailable, GENESIS_HEIGHT, None, None)};
          ok := false;
        case Malformed =>
          failures := failures + {Failure(GenesisMalformed, GENESIS_HEIGHT, None, None)};
          ok := false;
        case Interrupted =>
          ok := false;
        case Slots(slots) =>
          SeedSlots(slots);
          ok := true;
      }
    }

    /** Deletes the windows, the failures and the cursor. */
    method Reset()
      modifies this
      ensures Current() == State([], {}, 0, 0) && cursor == 0
    {
      windows, failures, written, failed, cursor := [], {}, 0, 0, 0;
    }

    /** The range loop: the rows of `sources`, one height after the other. */
    method ProjectHeights(sources: seq<HeightSource>)
      modifies this
      ensures Current() == ProjectRange(old(Current()), sources)
      ensures cursor == if sources == [] then old(cursor) else sources[|sources| - 1].height
    {
      for i := 0 to |sources|
        invariant Current() == ProjectRange(old(Current()), sources[..i])
        invariant cursor == if i == 0 then old(cursor) else sources[i - 1].height
      {
        ProjectAtHeight(sources[i]);
        assert sources[..i + 1][..i] == sources[..i];
      }
      assert sources[..|sources|] == sources;
    }
  }
}
