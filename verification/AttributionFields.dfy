/** Operator and power of an attribution: exactly which steps change what lookups say of them, and when
    interleavings agree on them too. */
module AttributionFields {
  import opened Wrappers
  import opened TemporalMap
  import opened BlockSignatures
  import opened WindowSafety
  import opened WindowFinality
  import opened DisjointRuns
  import opened Attribution
  import opened Pipeline

  predicate SameFields(w: Window, w': Window) {
    w'.operator == w.operator && w'.power == w.power
  }

  /** Every window that starts by `x` keeps its operator and power. */
  ghost predicate FieldsStay(t: Table, t': Table, x: int) {
    |t| <= |t'| && forall i :: 0 <= i < |t| && t[i].from <= x ==> SameFields(t[i], t'[i])
  }

  /** Every lookup up to a height gives the same attribution, operator and power included. */
  ghost predicate SameLookups(t: Table, t': Table, x: int) {
    forall address: Address, h :: h <= x ==> Lookup(t', address, h) == Lookup(t, address, h)
  }

  // ---- lookups and fields ----

  /** A window's own start is a height at which a lookup finds it. */
  lemma FoundAtItsStart(t: Table, i: nat)
    requires Valid(t) && i < |t|
    ensures FindWindow(t, Query(None, Some(t[i].address), t[i].from)) == Some(i)
  {
    var q := Query(None, Some(t[i].address), t[i].from);
    assert Matches(t[i], q);
    AddressOpensOnce(t, t[i].address, i, FindWindow(t, q).value);
  }

  /** Of tables that agree up to a height, lookups there agree fully exactly when the fields do. */
  lemma LookupsStayExactly(t: Table, t': Table, x: int)
    requires Valid(t) && AgreesUpTo(t, t', x)
    ensures SameLookups(t, t', x) <==> FieldsStay(t, t', x)
  {
    if FieldsStay(t, t', x) {
      forall address: Address, h | h <= x
        ensures Lookup(t', address, h) == Lookup(t, address, h)
      {
        LookupIsFinal(t, t', x, address, h);
        LookupSettles(t, t', x, address, h);
      }
    }
    if SameLookups(t, t', x) {
      forall i | 0 <= i < |t| && t[i].from <= x
        ensures SameFields(t[i], t'[i])
      {
        FoundAtItsStart(t, i);
        LookupIsFinal(t, t', x, t[i].address, t[i].from);
        assert Lookup(t', t[i].address, t[i].from) == Lookup(t, t[i].address, t[i].from);
      }
    }
  }

  // ---- one opening ----

  /** The given operator and power, where given, are those of the window. */
  predicate SaysTheSame(w: Window, o: Opening) {
    (o.operator.Some? ==> o.operator == w.operator) && (o.power.Some? ==> o.power == w.power)
  }

  /** Opening a window that is already there leaves every lookup as it is exactly when it gives no operator
      or power that differs from the window's. */
  lemma RefreshKeepsLookupsExactly(t: Table, o: Opening)
    requires Valid(t) && OpenWindow(t, o).1.Refreshed?
    ensures FindWindow(t, SameWindow(o)).Some?
    ensures (forall address: Address, h :: Lookup(OpenWindow(t, o).0, address, h) == Lookup(t, address, h))
            <==> SaysTheSame(t[FindWindow(t, SameWindow(o)).value], o)
  {
    var i := FindWindow(t, SameWindow(o)).value;
    var t' := OpenWindow(t, o).0;
    if SaysTheSame(t[i], o) {
      forall address: Address, h
        ensures Lookup(t', address, h) == Lookup(t, address, h)
      {
        AgreesWithItself(t, t', h);
        LookupsStayExactly(t, t', h);
      }
    } else {
      AgreesWithItself(t, t', t[i].from);
      LookupsStayExactly(t, t', t[i].from);
      assert !SameFields(t[i], t'[i]);
    }
  }

  /** A refresh moves no bound. */
  lemma AgreesWithItself(t: Table, t': Table, x: int)
    requires |t'| == |t|
    requires forall i :: 0 <= i < |t| ==> SameIdentity(t[i], t'[i]) && t'[i].to == t[i].to
    ensures AgreesUpTo(t, t', x)
  {
  }

  /** A created window, and the ending of the slot's old one, change no lookup below the boundary. */
  lemma CreationKeepsLookupsBelow(t: Table, o: Opening, x: int)
    requires Valid(t) && OpenWindow(t, o).1.Created? && x < o.from
    ensures SameLookups(t, OpenWindow(t, o).0, x)
  {
    OpenWindowEvolves(t, o);
    EvolutionAgreesBelow(t, OpenWindow(t, o).0, o.from, x);
    EndSelectedShape(t, EndingFor(o), 0, 0);
    LookupsStayExactly(t, OpenWindow(t, o).0, x);
  }

  // ---- one step ----

  /** The step re-opens no window that starts by `x` with another operator or power. */
  ghost predicate Harmless(t: Table, s: Step, x: int) {
    var a := AttemptOf(t, s);
    a.Some? ==>
      var same := FindWindow(a.value.table, SameWindow(a.value.opening));
      same.Some? && a.value.table[same.value].from <= x ==> SaysTheSame(a.value.table[same.value], a.value.opening)
  }

  lemma EndingKeepsFields(t: Table, c: Closing, x: int)
    ensures FieldsStay(t, EndSelected(t, c, 0, 0).0, x)
    ensures FieldsStay(t, CloseWindows(t, c).0, x)
    ensures |CloseWindows(t, c).0| == |t|
    ensures forall i :: 0 <= i < |t| ==> CloseWindows(t, c).0[i].from == t[i].from
  {
    EndSelectedShape(t, c, 0, 0);
  }

  lemma OpeningKeepsFieldsExactly(t: Table, o: Opening, x: int)
    ensures var same := FindWindow(t, SameWindow(o));
            FieldsStay(t, OpenWindow(t, o).0, x) <==>
            (same.Some? && t[same.value].from <= x ==> SaysTheSame(t[same.value], o))
  {
    EndingKeepsFields(t, EndingFor(o), x);
    var t' := OpenWindow(t, o).0;
    if FindWindow(t, SameWindow(o)).Some? {
      var i := FindWindow(t, SameWindow(o)).value;
      assert SameFields(t[i], t'[i]) <==> SaysTheSame(t[i], o);
    }
  }

  /** One step changes no operator or power up to a height exactly when it is harmless. */
  lemma StepKeepsFieldsExactly(t: Table, s: Step, x: int)
    ensures FieldsStay(t, StepWindows(t, s), x) <==> Harmless(t, s, x)
  {
    var a := AttemptOf(t, s);
    if Boundary(s).None? {
      StepWithoutBoundary(State(t, {}, 0, 0), s, 0);
    } else if a.Some? {
      var u := a.value.table;
      AttemptGivesTheWindows(t, s);
      OpeningKeepsFieldsExactly(u, a.value.opening, x);
      if u != t {
        var r := s.rotation;
        EndingKeepsFields(t, RotationClosing(r, NormalizeOptionalAddress(r.oldAddress).value,
                                             RotationUpdateHeight(r).value), x);
      }
      OpeningGrows(u, a.value.opening);
    } else {
      NoAttemptKeepsFields(t, s, x);
    }
  }

  lemma OpeningGrows(t: Table, o: Opening)
    ensures |t| <= |OpenWindow(t, o).0|
  {
    EndSelectedShape(t, EndingFor(o), 0, 0);
  }

  lemma NoAttemptKeepsFields(t: Table, s: Step, x: int)
    requires Boundary(s).Some? && AttemptOf(t, s).None?
    ensures FieldsStay(t, StepWindows(t, s), x)
  {
    match s
    case LifecycleStep(e) => EndingKeepsFields(t, DeactivationOf(e, e.slot.value), x);
    case RotationStep(r) =>
      EndingKeepsFields(t, RotationClosing(r, NormalizeOptionalAddress(r.oldAddress).value,
                                           RotationUpdateHeight(r).value), x);
  }

  // ---- runs of steps ----

  ghost predicate FieldsStayUntil(t: Table, steps: seq<Step>, x: int, n: nat)
    requires n <= |steps|
  {
    forall k :: 0 <= k <= n ==> FieldsStay(t, WindowsAfter(t, steps[..k]), x)
  }

  ghost predicate HarmlessUntil(t: Table, steps: seq<Step>, x: int, n: nat)
    requires n <= |steps|
  {
    forall k :: 0 <= k < n ==> Harmless(WindowsAfter(t, steps[..k]), steps[k], x)
  }

  ghost predicate AlwaysHarmless(t: Table, steps: seq<Step>, x: int) {
    HarmlessUntil(t, steps, x, |steps|)
  }

  /** Up to a height below all boundaries, lookups give the same at every moment of a run exactly when every
      step is harmless. */
  lemma RunKeepsLookupsExactly(t: Table, steps: seq<Step>, x: int)
    requires Valid(t) && forall k :: 0 <= k < |steps| ==> StepAbove(steps[k], x)
    ensures (forall k :: 0 <= k <= |steps| ==> SameLookups(t, WindowsAfter(t, steps[..k]), x))
            <==> AlwaysHarmless(t, steps, x)
  {
    FieldsUpTo(t, steps, x, |steps|);
    forall k | 0 <= k <= |steps|
      ensures SameLookups(t, WindowsAfter(t, steps[..k]), x) <==> FieldsStay(t, WindowsAfter(t, steps[..k]), x)
    {
      PrefixAgrees(t, steps, x, k);
      LookupsStayExactly(t, WindowsAfter(t, steps[..k]), x);
    }
  }

  lemma PrefixAgrees(t: Table, steps: seq<Step>, x: int, k: nat)
    requires Valid(t) && k <= |steps| && forall i :: 0 <= i < |steps| ==> StepAbove(steps[i], x)
    ensures Valid(WindowsAfter(t, steps[..k])) && AgreesUpTo(t, WindowsAfter(t, steps[..k]), x)
  {
    var m := State(t, {}, 0, 0);
    forall i | 0 <= i < k
      ensures StepAbove(steps[..k][i], x)
    {
      assert StepAbove(steps[i], x);
    }
    WindowsOfSteps(m, steps[..k], 0);
    StepsAgreeBelow(m, steps[..k], 0, x);
  }

  lemma FieldsStayTwice(t: Table, u: Table, v: Table, x: int)
    requires FieldsStay(t, u, x) && AgreesUpTo(t, u, x)
    requires |u| <= |v| && forall i :: |t| <= i < |u| ==> x < u[i].from
    ensures FieldsStay(t, v, x) <==> FieldsStay(u, v, x)
  {
    assert forall i :: 0 <= i < |t| ==> StaysUpTo(t[i], u[i], x);
  }

  lemma FieldsOneMore(t: Table, steps: seq<Step>, x: int, n: nat)
    requires Valid(t) && n < |steps| && forall k :: 0 <= k < |steps| ==> StepAbove(steps[k], x)
    requires FieldsStay(t, WindowsAfter(t, steps[..n]), x)
    ensures FieldsStay(t, WindowsAfter(t, steps[..n + 1]), x) <==> Harmless(WindowsAfter(t, steps[..n]), steps[n], x)
  {
    var u := WindowsAfter(t, steps[..n]);
    OneMoreStep(t, steps, n);
    StepKeepsFieldsExactly(u, steps[n], x);
    PrefixAgrees(t, steps, x, n);
    StepGrows(u, steps[n]);
    FieldsStayTwice(t, u, StepWindows(u, steps[n]), x);
  }

  lemma StayedOneMore(t: Table, steps: seq<Step>, x: int, n: nat)
    requires n < |steps|
    ensures FieldsStayUntil(t, steps, x, n + 1) <==>
            FieldsStayUntil(t, steps, x, n) && FieldsStay(t, WindowsAfter(t, steps[..n + 1]), x)
    ensures HarmlessUntil(t, steps, x, n + 1) <==>
            HarmlessUntil(t, steps, x, n) && Harmless(WindowsAfter(t, steps[..n]), steps[n], x)
  {
  }

  lemma {:induction false} FieldsUpTo(t: Table, steps: seq<Step>, x: int, n: nat)
    requires Valid(t) && n <= |steps| && forall k :: 0 <= k < |steps| ==> StepAbove(steps[k], x)
    ensures FieldsStayUntil(t, steps, x, n) <==> HarmlessUntil(t, steps, x, n)
  {
    if n == 0 {
      assert WindowsAfter(t, steps[..0]) == t;
    } else {
      FieldsUpTo(t, steps, x, n - 1);
      StayedOneMore(t, steps, x, n - 1);
      if FieldsStayUntil(t, steps, x, n - 1) {
        FieldsOneMore(t, steps, x, n - 1);
      }
    }
  }

  lemma StepGrows(t: Table, s: Step)
    ensures |t| <= |StepWindows(t, s)|
  {
    var a := AttemptOf(t, s);
    if Boundary(s).None? {
      StepWithoutBoundary(State(t, {}, 0, 0), s, 0);
    } else if a.Some? {
      AttemptGivesTheWindows(t, s);
      OpeningGrows(a.value.table, a.value.opening);
      if a.value.table != t {
        var r := s.rotation;
        EndingKeepsFields(t, RotationClosing(r, NormalizeOptionalAddress(r.oldAddress).value,
                                             RotationUpdateHeight(r).value), 0);
      }
    } else {
      NoAttemptKeepsFields(t, s, 0);
    }
  }
}
