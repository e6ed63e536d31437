/** The liveness driver, and why three of its refusals cannot happen after a capped run. */
module LivenessProjection {
  import opened Wrappers
  import opened TemporalMap
  import opened BlockSignatures
  import opened WindowSafety
  import opened WindowFinality
  import opened WindowDisjointness
  import opened Attribution
  import opened Liveness
  import opened Pipeline
  import opened Sorting

  /** The windows that cover a height, in row order. */
  function CoveringRows(t: Table, height: int): seq<Expected> {
    if t == [] then []
    else
      var n := |t| - 1;
      if Covers(t[n], height) then CoveringRows(t[..n], height) + [Expected(n, t[n])]
      else CoveringRows(t[..n], height)
  }

  /** By slot, then by start; the row breaks a tie. */
  predicate EarlierWindow(a: Expected, b: Expected) {
    || a.Slot() < b.Slot()
    || (a.Slot() == b.Slot() && a.window.from < b.window.from)
    || (a.Slot() == b.Slot() && a.window.from == b.window.from && a.id < b.id)
  }

  /** The windows that cover a height, in the order they are read. */
  function ActiveWindows(t: Table, height: int): seq<Expected> {
    Sort(CoveringRows(t, height), EarlierWindow)
  }

  lemma {:induction false} CoveringRowsExactly(t: Table, height: int)
    ensures forall e :: e in CoveringRows(t, height) <==> e.id in Covering(t, height) && e.window == t[e.id]
    ensures forall i, j :: 0 <= i < j < |CoveringRows(t, height)| ==>
              CoveringRows(t, height)[i].id < CoveringRows(t, height)[j].id
  {
    if t != [] {
      var n := |t| - 1;
      CoveringRowsExactly(t[..n], height);
      forall i: nat
        ensures i in Covering(t, height) <==> i in Covering(t[..n], height) || (i == n && Covers(t[n], height))
      {
      }
      forall i: nat | i < |CoveringRows(t[..n], height)|
        ensures CoveringRows(t[..n], height)[i].id < n
      {
        assert CoveringRows(t[..n], height)[i] in CoveringRows(t[..n], height);
      }
    }
  }

  lemma EarlierWindowIsStrict()
    ensures StrictOrder(EarlierWindow)
  {
  }

  lemma RowsAreComparable(t: Table, height: int)
    ensures Comparable(Elements(CoveringRows(t, height)), EarlierWindow) && Distinct(CoveringRows(t, height))
  {
    CoveringRowsExactly(t, height);
    forall a, b | a in Elements(CoveringRows(t, height)) && b in Elements(CoveringRows(t, height)) && a != b
      ensures EarlierWindow(a, b) || EarlierWindow(b, a)
    {
      assert a.id != b.id;
    }
  }

  /** The expected windows at a height are exactly the covering ones, ordered by slot and then by start. */
  lemma ActiveWindowsExactly(t: Table, height: int)
    ensures forall e :: e in ActiveWindows(t, height) <==> e.id in Covering(t, height) && e.window == t[e.id]
    ensures Increasing(ActiveWindows(t, height), EarlierWindow)
    ensures forall i, j :: 0 <= i < j < |ActiveWindows(t, height)| ==>
              var a, b := ActiveWindows(t, height)[i], ActiveWindows(t, height)[j];
              a.id != b.id && a.Slot() <= b.Slot() && (a.Slot() == b.Slot() ==> a.window.from <= b.window.from)
  {
    CoveringRowsExactly(t, height);
    EarlierWindowIsStrict();
    RowsAreComparable(t, height);
    SortIncreases(CoveringRows(t, height), EarlierWindow);
    var active := ActiveWindows(t, height);
    forall i, j | 0 <= i < j < |active|
      ensures active[i].id != active[j].id
    {
      assert active[i] in active && active[j] in active && EarlierWindow(active[i], active[j]);
    }
  }

  /** Disjoint windows expect each slot once. */
  lemma DisjointWindowsExpectDistinctSlots(t: Table, height: int)
    requires Valid(t) && Disjoint(t)
    ensures DistinctSlots(ActiveWindows(t, height))
  {
    var active := ActiveWindows(t, height);
    ActiveWindowsExactly(t, height);
    DisjointMeansOneWindowPerHeight(t);
    forall i, j | 0 <= i < j < |active|
      ensures active[i].Slot() != active[j].Slot()
    {
      assert active[i] in active && active[j] in active;
      OneOfASlot(t, height, active[i].id, active[j].id);
    }
  }

  lemma OneOfASlot(t: Table, height: int, i: nat, j: nat)
    requires Valid(t) && Disjoint(t) && i in Covering(t, height) && j in Covering(t, height) && i != j
    ensures t[i].slot != t[j].slot
  {
    DisjointMeansOneWindowPerHeight(t);
    assert Covers(t[i], height) && Covers(t[j], height);
    assert i < j ==> !Related(t[i], t[j]);
    assert j < i ==> !Related(t[j], t[i]);
  }

  // ---- the drivers ----

  function AtHeight(rows: seq<Observation>, committed: int): seq<Observation> {
    if rows == [] then []
    else
      var n := |rows| - 1;
      if rows[n].key.committed == committed then AtHeight(rows[..n], committed) + [rows[n]]
      else AtHeight(rows[..n], committed)
  }

  /** Increasing positions of `rows` at which the elements of `group` stand. */
  predicate StandsAt(group: seq<Observation>, rows: seq<Observation>, at: seq<nat>) {
    && |at| == |group|
    && (forall i, j :: 0 <= i < j < |at| ==> at[i] < at[j])
    && (forall i :: 0 <= i < |at| ==> at[i] < |rows| && rows[at[i]] == group[i])
  }

  /** The group of a height: all its observations and no others, in the order they were read, each as often. */
  ghost predicate IsGroup(group: seq<Observation>, rows: seq<Observation>, h: int) {
    && (forall o :: o in group <==> o in rows && o.key.committed == h)
    && (forall o :: o in group ==> multiset(group)[o] == multiset(rows)[o])
    && exists at :: StandsAt(group, rows, at)
  }

  lemma {:induction false} AtHeightCounts(rows: seq<Observation>, h: int, o: Observation)
    ensures multiset(AtHeight(rows, h))[o] == if o.key.committed == h then multiset(rows)[o] else 0
  {
    if rows != [] {
      var n := |rows| - 1;
      AtHeightCounts(rows[..n], h, o);
      assert rows == rows[..n] + [rows[n]];
    }
  }

  lemma {:induction false} AtHeightStands(rows: seq<Observation>, h: int) returns (at: seq<nat>)
    ensures StandsAt(AtHeight(rows, h), rows, at)
  {
    at := [];
    if rows != [] {
      var n := |rows| - 1;
      at := AtHeightStands(rows[..n], h);
      if rows[n].key.committed == h {
        at := at + [n];
      }
    }
  }

  lemma AtHeightExactly(rows: seq<Observation>, h: int)
    ensures IsGroup(AtHeight(rows, h), rows, h)
  {
    forall o
      ensures o in AtHeight(rows, h) <==> o in rows && o.key.committed == h
      ensures o in AtHeight(rows, h) ==> multiset(AtHeight(rows, h))[o] == multiset(rows)[o]
    {
      AtHeightCounts(rows, h, o);
      assert o in multiset(rows) <==> o in rows;
      assert o in multiset(AtHeight(rows, h)) <==> o in AtHeight(rows, h);
    }
    var at := AtHeightStands(rows, h);
  }

  method GroupByCommittedHeight(rows: seq<Observation>) returns (groups: map<int, seq<Observation>>)
    ensures groups.Keys == set o | o in rows :: o.key.committed
    ensures forall h :: h in groups ==> IsGroup(groups[h], rows, h)
    ensures forall h :: h in groups ==> groups[h] == AtHeight(rows, h)
  {
    groups := map[];
    for i := 0 to |rows|
      invariant groups.Keys == set o | o in rows[..i] :: o.key.committed
      invariant forall h :: h in groups ==> groups[h] == AtHeight(rows[..i], h)
    {
      var h := rows[i].key.committed;
      assert rows[..i + 1] == rows[..i] + [rows[i]] && rows[..i + 1][..i] == rows[..i];
      AbsentHeightIsEmpty(rows[..i], h);
      groups := groups[h := (if h in groups then groups[h] else []) + [rows[i]]];
    }
    assert rows[..|rows|] == rows;
    forall h | h in groups
      ensures IsGroup(groups[h], rows, h)
    {
      AtHeightExactly(rows, h);
    }
  }

  lemma {:induction false} AbsentHeightIsEmpty(rows: seq<Observation>, h: int)
    ensures (forall o :: o in rows ==> o.key.committed != h) ==> AtHeight(rows, h) == []
  {
    if rows != [] {
      AbsentHeightIsEmpty(rows[..|rows| - 1], h);
    }
  }

  type RowKey = (int, int)

  /** Rows of other heights are the same in both tables. */
  ghost predicate SameElsewhere(rows: map<RowKey, LivenessRow>, rows': map<RowKey, LivenessRow>, committed: int) {
    forall key: RowKey :: key.0 != committed ==>
      (key in rows <==> key in rows') && (key in rows ==> rows[key] == rows'[key])
  }

  /** The height's rows are exactly the verdicts on the first `n` expected slots. */
  ghost predicate HoldsVerdicts(rows: map<RowKey, LivenessRow>, committed: int, expected: seq<Expected>, n: nat,
                                observed: seq<Observation>)
    requires n <= |expected|
  {
    && (forall key: RowKey :: key in rows && key.0 == committed ==>
          exists i :: 0 <= i < n && key.1 == expected[i].Slot())
    && (forall i :: 0 <= i < n ==>
          (committed, expected[i].Slot()) in rows
          && rows[(committed, expected[i].Slot())] == RowFor(committed, expected[i], observed))
  }

  class Projection {
    var rows: map<RowKey, LivenessRow>
    var failures: set<(RefusalKind, int)>

    /** Replaces the rows of one committed height; a refused height keeps no rows at all. */
    method ProjectCommittedHeight(t: Table, source: int, committed: int, observed: seq<Observation>)
      returns (r: Evaluation)
      modifies this
      ensures r.Accepted? <==> Acceptable(ActiveWindows(t, committed), observed)
      ensures SameElsewhere(old(rows), rows, committed)
      ensures r.Accepted? ==> failures == old(failures)
      ensures r.Accepted? ==>
                HoldsVerdicts(rows, committed, ActiveWindows(t, committed), |ActiveWindows(t, committed)|, observed)
      ensures r.Refused? ==> failures == old(failures) + {(r.kind, source)}
      ensures r.Refused? ==> Justifies(r.kind, ActiveWindows(t, committed), observed)
      ensures r.Refused? ==> forall key :: key in rows ==> key.0 != committed
    {
      var expected := ActiveWindows(t, committed);
      r := EvaluateHeight(committed, expected, observed);
      DeleteHeight(committed);
      if r.Refused? {
        failures := failures + {(r.kind, source)};
      } else {
        CreateRows(committed, expected, r.rows, observed);
      }
    }

    method DeleteHeight(committed: int)
      modifies this`rows
      ensures SameElsewhere(old(rows), rows, committed)
      ensures forall key :: key in rows ==> key.0 != committed
    {
      rows := map key: RowKey | key in rows && key.0 != committed :: rows[key];
    }

    method CreateRows(committed: int, expected: seq<Expected>, evidence: seq<LivenessRow>,
                      ghost observed: seq<Observation>)
      requires evidence == RowsFor(committed, expected, observed)
      requires DistinctSlots(expected)
      requires forall key :: key in rows ==> key.0 != committed
      modifies this`rows
      ensures SameElsewhere(old(rows), rows, committed)
      ensures HoldsVerdicts(rows, committed, expected, |expected|, observed)
    {
      for i := 0 to |evidence|
        invariant SameElsewhere(old(rows), rows, committed)
        invariant HoldsVerdicts(rows, committed, expected, i, observed)
      {
        rows := rows[(committed, expected[i].Slot()) := evidence[i]];
      }
    }
  }

  // ---- attribution agrees with expectation ----

  function ObservationOf(key: SignatureKey, e: Evidence): Observation {
    Observation(key, e.attribution.slot, e.attribution.status, e.row.flagCode, e.row.signed)
  }

  /** The observations a height is evaluated on come from evidence rows of that height. */
  ghost predicate ReadFrom(observed: seq<Observation>, s: System, committed: int) {
    forall o :: o in observed ==>
      o.key in s.evidence && o.key.committed == committed && o == ObservationOf(o.key, s.evidence[o.key])
  }

  /** Evidence may have been written against an earlier window table; its attributed slots are
      still expected by the present one. */
  lemma AttributedSlotIsExpected(chain: Chain, s: System, key: SignatureKey)
    requires EvidenceSettled(chain, s) && key in s.evidence
    requires s.evidence[key].attribution.status.Attributed?
    ensures var a := s.evidence[key].attribution;
            a.slot.Some? && a.slot.value in ExpectedSlots(ActiveWindows(s.map_.windows, key.committed))
  {
    var t := s.map_.windows;
    var now := EvidenceOf(t, chain, key).attribution;
    assert SettledPart(now) == SettledPart(s.evidence[key].attribution);
    LookupExactly(t, key.validator.address, key.committed);
    ActiveWindowsExactly(t, key.committed);
    assert Expected(now.window.value, t[now.window.value]) in ActiveWindows(t, key.committed);
  }

  /** After any capped interleaving, `malformed_liveness_input` and
      `observed_attributed_slot_not_expected` are unreachable, and with disjoint windows so is
      `duplicate_expected_slot_at_height`. */
  lemma PipelineNeverRefusesAttribution(chain: Chain, start: System, actions: seq<Action>, committed: int,
                                        observed: seq<Observation>)
    requires IndexedChain(chain) && Fresh(start) && CanRun(chain, start, actions)
    requires ReadFrom(observed, Run(chain, start, actions), committed)
    ensures var expected := ActiveWindows(Run(chain, start, actions).map_.windows, committed);
            && !Justifies(MalformedInput, expected, observed)
            && !Justifies(ObservedNotExpected, expected, observed)
            && (Disjoint(Run(chain, start, actions).map_.windows) ==>
                !Justifies(DuplicateExpectedSlot, expected, observed))
  {
    var s := Run(chain, start, actions);
    EveryRunSettles(chain, start, actions);
    forall o | o in observed && o.status.Attributed?
      ensures o.slot.Some? && o.slot.value in ExpectedSlots(ActiveWindows(s.map_.windows, committed))
    {
      AttributedSlotIsExpected(chain, s, o.key);
    }
    if Disjoint(s.map_.windows) {
      DisjointWindowsExpectDistinctSlots(s.map_.windows, committed);
    }
  }
}
