/** History is final: a step never changes which windows cover a height below its boundary. */
module WindowFinality {
  import opened Wrappers
  import opened TemporalMap
  import opened WindowSafety

  /** `t'` is a later table that agrees with `t` on every height up to `x`. */
  ghost predicate AgreesUpTo(t: Table, t': Table, x: int) {
    && |t| <= |t'|
    && (forall i :: 0 <= i < |t| ==> StaysUpTo(t[i], t'[i], x))
    && (forall i :: |t| <= i < |t'| ==> x < t'[i].from)
  }

  predicate StaysUpTo(w: Window, w': Window, x: int) {
    && SameIdentity(w, w')
    && (w'.to == w.to || (w.to.None? && w'.to.Some? && x < w'.to.value))
  }

  /** The rows of the windows that cover a height. */
  function Covering(t: Table, height: int): set<nat> {
    set i: nat | i < |t| && Covers(t[i], height)
  }

  lemma AgreementIsTransitive(t: Table, u: Table, v: Table, x: int)
    requires AgreesUpTo(t, u, x) && AgreesUpTo(u, v, x)
    ensures AgreesUpTo(t, v, x)
  {
    forall i | 0 <= i < |t|
      ensures StaysUpTo(t[i], v[i], x)
    {
      assert StaysUpTo(t[i], u[i], x) && StaysUpTo(u[i], v[i], x);
    }
    forall i | |t| <= i < |v|
      ensures x < v[i].from
    {
      if i < |u| {
        assert StaysUpTo(u[i], v[i], x);
      }
    }
  }

  lemma EvolutionAgreesBelow(t: Table, t': Table, b: int, x: int)
    requires Evolves(t, t', b) && x < b
    ensures AgreesUpTo(t, t', x)
  {
    forall i | 0 <= i < |t|
      ensures StaysUpTo(t[i], t'[i], x)
    {
      assert Continues(t[i], t'[i], b);
    }
  }

  /** Agreement in terms of coverage: the same rows, with the same slot and address. */
  lemma AgreementKeepsCoverage(t: Table, t': Table, x: int, y: int)
    requires AgreesUpTo(t, t', x) && y <= x
    ensures Covering(t', y) == Covering(t, y)
    ensures forall i :: i in Covering(t, y) ==> SameIdentity(t[i], t'[i])
  {
    forall i: nat | i < |t'|
      ensures Covers(t'[i], y) <==> i < |t| && Covers(t[i], y)
    {
      if i < |t| {
        assert StaysUpTo(t[i], t'[i], x);
      }
    }
    forall i | i in Covering(t, y)
      ensures SameIdentity(t[i], t'[i])
    {
      assert StaysUpTo(t[i], t'[i], x);
    }
  }

  lemma MatchIsFinal(t: Table, t': Table, x: int, q: Query, i: nat)
    requires AgreesUpTo(t, t', x) && q.height <= x && i < |t'|
    ensures Matches(t'[i], q) <==> i < |t| && Matches(t[i], q)
    ensures i < |t| ==> t'[i].from == t[i].from
  {
    if i < |t| {
      assert StaysUpTo(t[i], t'[i], x);
    }
  }

  /** At most one row answers a lookup by address with a given `from`. */
  lemma AddressOpensOnce(t: Table, address: Address, i: nat, j: nat)
    requires Valid(t) && i < |t| && j < |t|
    requires t[i].address == address && t[j].address == address && t[i].from == t[j].from
    ensures i == j
  {
  }

  /** Two lookups by address agree when the tables agree up to the height asked for. */
  lemma LookupIsFinal(t: Table, t': Table, x: int, address: Address, height: int)
    requires Valid(t) && AgreesUpTo(t, t', x) && height <= x
    ensures FindWindow(t', Query(None, Some(address), height)) == FindWindow(t, Query(None, Some(address), height))
  {
    var q := Query(None, Some(address), height);
    var r, r' := FindWindow(t, q), FindWindow(t', q);
    if r.Some? {
      MatchIsFinal(t, t', x, q, r.value);
    }
    if r'.Some? {
      MatchIsFinal(t, t', x, q, r'.value);
    }
    if r.Some? && r'.Some? {
      AddressOpensOnce(t, address, r.value, r'.value);
    }
  }

  // ---- runs ----

  predicate StepAbove(s: Step, x: int) {
    Boundary(s).Some? ==> x < Boundary(s).value
  }

  lemma {:induction false} StepsAgreeBelow(m: State, steps: seq<Step>, height: int, x: int)
    requires Valid(m.windows)
    requires forall i :: 0 <= i < |steps| ==> StepAbove(steps[i], x)
    ensures Valid(ApplyAll(m, steps, height).windows)
    ensures AgreesUpTo(m.windows, ApplyAll(m, steps, height).windows, x)
  {
    if steps != [] {
      var n := |steps| - 1;
      StepsAgreeBelow(m, steps[..n], height, x);
      var before := ApplyAll(m, steps[..n], height);
      var after := Apply(before, steps[n], height);
      assert StepAbove(steps[n], x);
      if Boundary(steps[n]).None? {
        StepWithoutBoundary(before, steps[n], height);
      } else {
        StepFollows(before, steps[n], height);
        EvolutionAgreesBelow(before.windows, after.windows, Boundary(steps[n]).value, x);
        AgreementIsTransitive(m.windows, before.windows, after.windows, x);
      }
    }
  }

  /** Every boundary of a height's steps takes effect at least two heights later. */
  ghost predicate TakesEffectLater(s: HeightSource) {
    forall i :: 0 <= i < |s.Steps()| ==> StepAbove(s.Steps()[i], s.height + 1)
  }

  /** The height at which a row's validator update is made, if it opens or closes windows at all. */
  function UpdateHeight(s: Step): Option<int> {
    if Boundary(s).None? then None
    else
      match s
      case LifecycleStep(e) => Some(LifecycleUpdateHeight(e))
      case RotationStep(r) => RotationUpdateHeight(r)
  }

  /** A row takes effect later exactly when its update is not made before the height it is projected at; a
      lifecycle row that names no effective height always is, one that names an earlier height is not. */
  lemma TakesEffectLaterExactly(s: HeightSource)
    ensures TakesEffectLater(s) <==>
            && (forall e :: e in s.lifecycle ==> UpdateHeight(LifecycleStep(e)).GetOr(s.height) >= s.height)
            && (forall r :: r in s.rotations ==> UpdateHeight(RotationStep(r)).GetOr(s.height) >= s.height)
    ensures (forall e :: e in s.lifecycle ==> e.height == s.height && e.effectiveHeight.None?) && s.rotations == []
            ==> TakesEffectLater(s)
  {
    var steps, n := s.Steps(), |s.lifecycle|;
    forall step
      ensures step in steps <==>
              if step.LifecycleStep? then step.event in s.lifecycle else step.rotation in s.rotations
    {
      if step.LifecycleStep? && step.event in s.lifecycle {
        var i :| 0 <= i < n && s.lifecycle[i] == step.event;
        assert steps[i] == step;
      }
      if step.RotationStep? && step.rotation in s.rotations {
        var i :| 0 <= i < |s.rotations| && s.rotations[i] == step.rotation;
        assert steps[n + i] == step;
      }
    }
    forall step
      ensures StepAbove(step, s.height + 1) <==> UpdateHeight(step).GetOr(s.height) >= s.height
    {
    }
    if TakesEffectLater(s) {
      forall step | step in steps
        ensures StepAbove(step, s.height + 1)
      {
        var i :| 0 <= i < |steps| && steps[i] == step;
        assert StepAbove(steps[i], s.height + 1);
      }
      forall e | e in s.lifecycle
        ensures UpdateHeight(LifecycleStep(e)).GetOr(s.height) >= s.height
      {
        assert LifecycleStep(e) in steps;
      }
      forall r | r in s.rotations
        ensures UpdateHeight(RotationStep(r)).GetOr(s.height) >= s.height
      {
        assert RotationStep(r) in steps;
      }
    }
  }

  ghost predicate AllLater(sources: seq<HeightSource>, cursor: int) {
    forall i :: 0 <= i < |sources| ==> cursor < sources[i].height && TakesEffectLater(sources[i])
  }

  /** Once the temporal map has processed `cursor`, later heights leave coverage at every height
      up to `cursor + 2` as it is. */
  lemma {:induction false} HistoryIsFinal(m: State, sources: seq<HeightSource>, cursor: int)
    requires Valid(m.windows)
    requires AllLater(sources, cursor)
    ensures Valid(ProjectRange(m, sources).windows)
    ensures AgreesUpTo(m.windows, ProjectRange(m, sources).windows, cursor + 2)
    ensures forall y :: y <= cursor + 2 ==> Covering(ProjectRange(m, sources).windows, y) == Covering(m.windows, y)
  {
    if sources != [] {
      var n := |sources| - 1;
      HistoryIsFinal(m, sources[..n], cursor);
      var before := Prepare(ProjectRange(m, sources[..n]), sources[n].height);
      assert TakesEffectLater(sources[n]);
      forall i | 0 <= i < |sources[n].Steps()|
        ensures StepAbove(sources[n].Steps()[i], cursor + 2)
      {
        assert StepAbove(sources[n].Steps()[i], sources[n].height + 1);
      }
      StepsAgreeBelow(before, sources[n].Steps(), sources[n].height, cursor + 2);
      AgreementIsTransitive(m.windows, before.windows, ProjectRange(m, sources).windows, cursor + 2);
    }
    forall y | y <= cursor + 2
      ensures Covering(ProjectRange(m, sources).windows, y) == Covering(m.windows, y)
    {
      AgreementKeepsCoverage(m.windows, ProjectRange(m, sources).windows, cursor + 2, y);
    }
  }

  /** The bound is exact: an opening that is not refused changes coverage at its boundary and at
      no earlier height. */
  lemma CreationCoversFromBoundary(t: Table, o: Opening, x: int)
    requires Valid(t)
    requires OpenWindow(t, o).1.Created?
    ensures |t| in Covering(OpenWindow(t, o).0, x) <==> o.from <= x
    ensures x < o.from ==> Covering(OpenWindow(t, o).0, x) == Covering(t, x)
    ensures o.from <= x ==> Covering(OpenWindow(t, o).0, x) != Covering(t, x)
  {
    OpenWindowEvolves(t, o);
    EndSelectedShape(t, EndingFor(o), 0, 0);
    var t' := OpenWindow(t, o).0;
    if x < o.from {
      EvolutionAgreesBelow(t, t', o.from, x);
      AgreementKeepsCoverage(t, t', x, x);
    } else {
      assert |t| in Covering(t', x) && |t| !in Covering(t, x);
    }
  }

  // ---- the bound is the best possible ----

  function UnusedSlot(t: Table): (slot: int)
    ensures forall i :: 0 <= i < |t| ==> t[i].slot < slot
  {
    if t == [] then 0
    else
      var n := |t| - 1;
      var rest := UnusedSlot(t[..n]);
      assert forall i :: 0 <= i < n ==> t[..n][i] == t[i];
      if rest <= t[n].slot then t[n].slot + 1 else rest
  }

  function UnusedAddress(t: Table): (address: Address)
    ensures forall i :: 0 <= i < |t| ==> t[i].address < address
  {
    if t == [] then 0
    else
      var n := |t| - 1;
      var rest := UnusedAddress(t[..n]);
      assert forall i :: 0 <= i < n ==> t[..n][i] == t[i];
      if rest <= t[n].address then t[n].address + 1 else rest
  }

  /** The activation of a slot that has no window yet, with an address that none has. */
  function NewcomerAt(t: Table, height: int): LifecycleEvent {
    LifecycleEvent(0, 0, height, Some(UnusedSlot(t)), Activated, None, HexAddress(UnusedAddress(t)), None, None)
  }

  lemma NewcomerIsCreated(t: Table, o: Opening)
    requires o.slot == UnusedSlot(t) && o.address == UnusedAddress(t)
    ensures OpenWindow(t, o) == (t + [NewWindow(o)], Created)
  {
    EndSelectedShape(t, EndingFor(o), 0, 0);
    assert EndSelected(t, EndingFor(o), 0, 0).0 == t;
  }

  lemma NewcomerCovers(m: State, height: int, y: int)
    requires height + 2 <= y
    ensures TakesEffectLater(HeightSource(height, [NewcomerAt(m.windows, height)], []))
    ensures Covering(ProjectHeight(m, HeightSource(height, [NewcomerAt(m.windows, height)], [])).windows, y)
         != Covering(m.windows, y)
  {
    var e := NewcomerAt(m.windows, height);
    var source := HeightSource(height, [e], []);
    var steps, o := source.Steps(), ActivationOf(e, e.slot.value, e.address.address);
    TakesEffectLaterExactly(source);
    assert steps == [LifecycleStep(e)] && steps[..0] == [];
    assert ApplyAll(Prepare(m, height), steps[..0], height) == Prepare(m, height);
    NewcomerIsCreated(m.windows, o);
    var t' := m.windows + [NewWindow(o)];
    assert ProjectHeight(m, source).windows == t';
    assert |m.windows| in Covering(t', y) && |m.windows| !in Covering(m.windows, y);
  }

  /** Coverage at a height is final, whatever later heights bring, exactly up to two heights beyond the cursor. */
  lemma HistoryIsFinalExactly(m: State, cursor: int, y: int)
    requires Valid(m.windows)
    ensures (forall sources :: AllLater(sources, cursor) ==>
               Covering(ProjectRange(m, sources).windows, y) == Covering(m.windows, y))
            <==> y <= cursor + 2
  {
    if y <= cursor + 2 {
      forall sources | AllLater(sources, cursor)
        ensures Covering(ProjectRange(m, sources).windows, y) == Covering(m.windows, y)
      {
        HistoryIsFinal(m, sources, cursor);
      }
    } else {
      var source := HeightSource(cursor + 1, [NewcomerAt(m.windows, cursor + 1)], []);
      NewcomerCovers(m, cursor + 1, y);
      assert AllLater([source], cursor);
      assert [source][..0] == [];
      assert ProjectRange(m, [source][..0]) == m;
      assert ProjectRange(m, [source]) == ProjectHeight(m, source);
    }
  }
}
