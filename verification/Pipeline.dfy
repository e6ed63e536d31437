/** The temporal map, signing evidence and proposer attribution run as separate, interleaved jobs.
    Downstream jobs are capped at the temporal map's cursor; then the interleaving does not matter. */
module Pipeline {
  import opened Wrappers
  import opened TemporalMap
  import opened BlockSignatures
  import opened WindowSafety
  import opened WindowFinality
  import opened Attribution

  datatype System = System(
    map_: State,
    mapCursor: int,
    evidence: map<SignatureKey, Evidence>,
    proposers: map<int, Attribution>)

  /** One committed transaction of one of the three jobs. */
  datatype Action =
    | MapHeight(source: HeightSource)
    | EvidenceBlock(height: int)
    | ProposerBlock(height: int)
  {
    predicate IsMap() { MapHeight? }
  }

  /** Blocks are indexed by their source height, and a signature belongs to the block before. */
  ghost predicate IndexedChain(chain: Chain) {
    forall key :: key in chain.signatures ==> 0 <= key.source && key.committed == DerivedCommittedHeight(key.source)
  }

  /** The temporal map never goes back, but may project its cursor's height again, as it does with height 1
      after seeding genesis; downstream blocks stay within its cursor. */
  ghost predicate Enabled(s: System, a: Action) {
    match a
    case MapHeight(source) => s.mapCursor <= source.height && TakesEffectLater(source)
    case EvidenceBlock(h) => h <= s.mapCursor
    case ProposerBlock(h) => h <= s.mapCursor
  }

  function Next(chain: Chain, s: System, a: Action): System {
    match a
    case MapHeight(source) => s.(map_ := ProjectHeight(s.map_, source), mapCursor := source.height)
    case EvidenceBlock(h) => s.(evidence := s.evidence + EvidenceAt(s.map_.windows, chain, h))
    case ProposerBlock(h) => s.(proposers := s.proposers + ProposerAt(s.map_.windows, chain, h))
  }

  function Run(chain: Chain, s: System, actions: seq<Action>): System {
    if actions == [] then s
    else Next(chain, Run(chain, s, actions[..|actions| - 1]), actions[|actions| - 1])
  }

  ghost predicate CanRun(chain: Chain, s: System, actions: seq<Action>) {
    actions == []
    || (&& CanRun(chain, s, actions[..|actions| - 1])
        && Enabled(Run(chain, s, actions[..|actions| - 1]), actions[|actions| - 1]))
  }

  /** A tick's blocks are all enabled: each lies below the capped end. */
  lemma CappedTickIsEnabled(s: System, requested: int, height: int)
    requires height <= CapEndHeight(requested, s.mapCursor)
    ensures Enabled(s, EvidenceBlock(height)) && Enabled(s, ProposerBlock(height))
  {
  }

  // ---- every stored row says what the present table says ----

  ghost predicate EvidenceSettled(chain: Chain, s: System) {
    forall key :: key in s.evidence ==>
      && key in chain.signatures && key.source <= s.mapCursor
      && s.evidence[key].row == chain.signatures[key]
      && SettledPart(s.evidence[key].attribution) ==
         SettledPart(EvidenceOf(s.map_.windows, chain, key).attribution)
  }

  ghost predicate ProposersSettled(chain: Chain, s: System) {
    forall h :: h in s.proposers ==>
      && h in chain.proposers && h <= s.mapCursor
      && SettledPart(s.proposers[h]) == SettledPart(ClassifyProposer(s.map_.windows, chain.proposers[h], h))
  }

  ghost predicate AllSettled(chain: Chain, s: System) {
    Valid(s.map_.windows) && EvidenceSettled(chain, s) && ProposersSettled(chain, s)
  }

  lemma MapHeightAgrees(s: System, source: HeightSource)
    requires Valid(s.map_.windows) && TakesEffectLater(source)
    ensures Valid(ProjectHeight(s.map_, source).windows)
    ensures AgreesUpTo(s.map_.windows, ProjectHeight(s.map_, source).windows, source.height + 1)
  {
    StepsAgreeBelow(Prepare(s.map_, source.height), source.Steps(), source.height, source.height + 1);
  }

  lemma MapHeightSettles(chain: Chain, s: System, source: HeightSource)
    requires IndexedChain(chain) && AllSettled(chain, s)
    requires Enabled(s, MapHeight(source))
    ensures AllSettled(chain, Next(chain, s, MapHeight(source)))
  {
    var t, t' := s.map_.windows, ProjectHeight(s.map_, source).windows;
    MapHeightAgrees(s, source);
    forall key | key in s.evidence
      ensures SettledPart(EvidenceOf(t', chain, key).attribution) == SettledPart(EvidenceOf(t, chain, key).attribution)
    {
      SignatureSettles(t, t', source.height + 1, key, chain.signatures[key], key.source in chain.invalidRecorded);
    }
    forall h | h in s.proposers
      ensures SettledPart(ClassifyProposer(t', chain.proposers[h], h))
           == SettledPart(ClassifyProposer(t, chain.proposers[h], h))
    {
      ProposerSettles(t, t', source.height + 1, chain.proposers[h], h);
    }
  }

  lemma NextSettles(chain: Chain, s: System, a: Action)
    requires IndexedChain(chain) && AllSettled(chain, s) && Enabled(s, a)
    ensures AllSettled(chain, Next(chain, s, a))
    ensures s.mapCursor <= Next(chain, s, a).mapCursor
  {
    if a.MapHeight? {
      MapHeightSettles(chain, s, a.source);
    }
  }

  /** Whatever the interleaving, every row written on the way carries the slot, window and status
      that the final window table gives it. */
  lemma {:induction false} EveryRunSettles(chain: Chain, s: System, actions: seq<Action>)
    requires IndexedChain(chain) && AllSettled(chain, s) && CanRun(chain, s, actions)
    ensures AllSettled(chain, Run(chain, s, actions))
    ensures s.mapCursor <= Run(chain, s, actions).mapCursor
  {
    if actions != [] {
      var n := |actions| - 1;
      EveryRunSettles(chain, s, actions[..n]);
      NextSettles(chain, Run(chain, s, actions[..n]), actions[n]);
    }
  }

  // ---- what a run projects ----

  function MapSources(actions: seq<Action>): seq<HeightSource> {
    if actions == [] then []
    else
      var n := |actions| - 1;
      if actions[n].IsMap() then MapSources(actions[..n]) + [actions[n].source] else MapSources(actions[..n])
  }

  function EvidenceHeights(actions: seq<Action>): set<int> {
    set i | 0 <= i < |actions| && actions[i].EvidenceBlock? :: actions[i].height
  }

  function ProposerHeights(actions: seq<Action>): set<int> {
    set i | 0 <= i < |actions| && actions[i].ProposerBlock? :: actions[i].height
  }

  function EvidenceView(s: System): map<SignatureKey, Settled> {
    map key | key in s.evidence :: SettledPart(s.evidence[key].attribution)
  }

  function ProposerView(s: System): map<int, Settled> {
    map h | h in s.proposers :: SettledPart(s.proposers[h])
  }

  lemma {:induction false} RunProjectsItsSources(chain: Chain, s: System, actions: seq<Action>)
    ensures Run(chain, s, actions).map_ == ProjectRange(s.map_, MapSources(actions))
  {
    if actions != [] {
      var n := |actions| - 1;
      RunProjectsItsSources(chain, s, actions[..n]);
      if actions[n].MapHeight? {
        assert MapSources(actions)[..|MapSources(actions)| - 1] == MapSources(actions[..n]);
      }
    }
  }

  lemma {:induction false} RunCoversEvidence(chain: Chain, s: System, actions: seq<Action>)
    requires s.evidence == map[]
    ensures forall key :: key in Run(chain, s, actions).evidence <==>
              key in chain.signatures && key.source in EvidenceHeights(actions)
  {
    if actions != [] {
      RunCoversEvidence(chain, s, actions[..|actions| - 1]);
      HeightsOneMore(actions);
    }
  }

  lemma {:induction false} RunCoversProposers(chain: Chain, s: System, actions: seq<Action>)
    requires s.proposers == map[]
    ensures forall h :: h in Run(chain, s, actions).proposers <==>
              h in chain.proposers && h in ProposerHeights(actions)
  {
    if actions != [] {
      RunCoversProposers(chain, s, actions[..|actions| - 1]);
      HeightsOneMore(actions);
    }
  }

  lemma HeightsOneMore(actions: seq<Action>)
    requires actions != []
    ensures var n := |actions| - 1;
            && EvidenceHeights(actions) == EvidenceHeights(actions[..n])
                 + (if actions[n].EvidenceBlock? then {actions[n].height} else {})
            && ProposerHeights(actions) == ProposerHeights(actions[..n])
                 + (if actions[n].ProposerBlock? then {actions[n].height} else {})
  {
    var n := |actions| - 1;
    assert forall i :: 0 <= i < n ==> actions[..n][i] == actions[i];
  }

  /** A system that has projected nothing downstream. */
  ghost predicate Fresh(s: System) {
    Valid(s.map_.windows) && s.evidence == map[] && s.proposers == map[]
  }

  /** What the evidence table must say, given the final windows and the blocks projected. */
  function ExpectedEvidence(chain: Chain, t: Table, heights: set<int>): map<SignatureKey, Settled> {
    map key | key in chain.signatures && key.source in heights :: SettledPart(EvidenceOf(t, chain, key).attribution)
  }

  function ExpectedProposers(chain: Chain, t: Table, heights: set<int>): map<int, Settled> {
    map h | h in chain.proposers && h in heights :: SettledPart(ClassifyProposer(t, chain.proposers[h], h))
  }

  lemma SettledEvidenceIsExpected(chain: Chain, s: System, heights: set<int>)
    requires EvidenceSettled(chain, s)
    requires forall key :: key in s.evidence <==> key in chain.signatures && key.source in heights
    ensures EvidenceView(s) == ExpectedEvidence(chain, s.map_.windows, heights)
  {
    var view, expected := EvidenceView(s), ExpectedEvidence(chain, s.map_.windows, heights);
    assert forall key :: key in view <==> key in expected;
    forall key | key in view
      ensures view[key] == expected[key]
    {
      assert key in s.evidence;
    }
  }

  lemma SettledProposersAreExpected(chain: Chain, s: System, heights: set<int>)
    requires ProposersSettled(chain, s)
    requires forall h :: h in s.proposers <==> h in chain.proposers && h in heights
    ensures ProposerView(s) == ExpectedProposers(chain, s.map_.windows, heights)
  {
    var view, expected := ProposerView(s), ExpectedProposers(chain, s.map_.windows, heights);
    assert forall h :: h in view <==> h in expected;
    forall h | h in view
      ensures view[h] == expected[h]
    {
      assert h in s.proposers;
    }
  }

  /** Every run ends with the windows of its temporal-map heights and, for the blocks it covered,
      exactly the slots, windows and statuses those final windows give. */
  lemma RunResult(chain: Chain, s: System, actions: seq<Action>)
    requires IndexedChain(chain) && Fresh(s) && CanRun(chain, s, actions)
    ensures var end := Run(chain, s, actions);
            && end.map_ == ProjectRange(s.map_, MapSources(actions))
            && EvidenceView(end) == ExpectedEvidence(chain, end.map_.windows, EvidenceHeights(actions))
            && ProposerView(end) == ExpectedProposers(chain, end.map_.windows, ProposerHeights(actions))
  {
    EveryRunSettles(chain, s, actions);
    RunProjectsItsSources(chain, s, actions);
    RunCoversEvidence(chain, s, actions);
    RunCoversProposers(chain, s, actions);
    SettledEvidenceIsExpected(chain, Run(chain, s, actions), EvidenceHeights(actions));
    SettledProposersAreExpected(chain, Run(chain, s, actions), ProposerHeights(actions));
  }

  /** Two interleavings of the same temporal-map heights that cover the same blocks end with the
      same windows and the same slot, window and status for every signature and proposer. */
  lemma Confluence(chain: Chain, s: System, a: seq<Action>, b: seq<Action>)
    requires IndexedChain(chain) && Fresh(s)
    requires CanRun(chain, s, a) && CanRun(chain, s, b)
    requires MapSources(a) == MapSources(b)
    requires EvidenceHeights(a) == EvidenceHeights(b) && ProposerHeights(a) == ProposerHeights(b)
    ensures Run(chain, s, a).map_ == Run(chain, s, b).map_
    ensures EvidenceView(Run(chain, s, a)) == EvidenceView(Run(chain, s, b))
    ensures ProposerView(Run(chain, s, a)) == ProposerView(Run(chain, s, b))
  {
    RunResult(chain, s, a);
    RunResult(chain, s, b);
  }

  // ---- once at the end ----

  function MapPart(actions: seq<Action>): seq<Action> {
    if actions == [] then []
    else
      var n := |actions| - 1;
      if actions[n].IsMap() then MapPart(actions[..n]) + [actions[n]] else MapPart(actions[..n])
  }

  function DownstreamPart(actions: seq<Action>): seq<Action> {
    if actions == [] then []
    else
      var n := |actions| - 1;
      if actions[n].IsMap() then DownstreamPart(actions[..n]) else DownstreamPart(actions[..n]) + [actions[n]]
  }

  /** The same work with the downstream jobs run only when the temporal map is done. */
  function OnceAtTheEnd(actions: seq<Action>): seq<Action> {
    MapPart(actions) + DownstreamPart(actions)
  }

  lemma {:induction false} MapPartRuns(chain: Chain, s: System, actions: seq<Action>)
    requires CanRun(chain, s, actions)
    ensures CanRun(chain, s, MapPart(actions))
    ensures Run(chain, s, MapPart(actions)).map_ == Run(chain, s, actions).map_
    ensures Run(chain, s, MapPart(actions)).mapCursor == Run(chain, s, actions).mapCursor
  {
    if actions != [] {
      var n := |actions| - 1;
      MapPartRuns(chain, s, actions[..n]);
      if actions[n].IsMap() {
        assert MapPart(actions)[..|MapPart(actions)| - 1] == MapPart(actions[..n]);
      }
    }
  }

  lemma {:induction false} DownstreamStaysBelow(chain: Chain, s: System, actions: seq<Action>)
    requires CanRun(chain, s, actions)
    ensures s.mapCursor <= Run(chain, s, actions).mapCursor
    ensures forall i :: 0 <= i < |DownstreamPart(actions)| ==>
              && !DownstreamPart(actions)[i].IsMap()
              && DownstreamPart(actions)[i].height <= Run(chain, s, actions).mapCursor
  {
    if actions != [] {
      DownstreamStaysBelow(chain, s, actions[..|actions| - 1]);
    }
  }

  lemma {:induction false} DownstreamRuns(chain: Chain, s: System, maps: seq<Action>, downstream: seq<Action>)
    requires CanRun(chain, s, maps)
    requires forall i :: 0 <= i < |downstream| ==>
               !downstream[i].IsMap() && downstream[i].height <= Run(chain, s, maps).mapCursor
    ensures CanRun(chain, s, maps + downstream)
    ensures Run(chain, s, maps + downstream).mapCursor == Run(chain, s, maps).mapCursor
  {
    if downstream == [] {
      assert maps + downstream == maps;
    } else {
      var n := |downstream| - 1;
      assert (maps + downstream)[..|maps| + n] == maps + downstream[..n];
      DownstreamRuns(chain, s, maps, downstream[..n]);
    }
  }

  lemma {:induction false} SourcesOfConcatenation(a: seq<Action>, b: seq<Action>)
    ensures MapSources(a + b) == MapSources(a) + MapSources(b)
  {
    if b == [] {
      assert a + b == a;
    } else {
      assert (a + b)[..|a + b| - 1] == a + b[..|b| - 1];
      SourcesOfConcatenation(a, b[..|b| - 1]);
    }
  }

  lemma {:induction false} PartsKeepTheWork(actions: seq<Action>)
    ensures MapSources(MapPart(actions)) == MapSources(actions) && MapSources(DownstreamPart(actions)) == []
    ensures forall a :: a in actions <==> a in MapPart(actions) || a in DownstreamPart(actions)
  {
    if actions != [] {
      var n := |actions| - 1;
      var maps, downstream := MapPart(actions[..n]), DownstreamPart(actions[..n]);
      PartsKeepTheWork(actions[..n]);
      assert actions == actions[..n] + [actions[n]];
      if actions[n].IsMap() {
        assert (maps + [actions[n]])[..|maps|] == maps;
      } else {
        assert (downstream + [actions[n]])[..|downstream|] == downstream;
      }
    }
  }

  lemma SameWorkSameHeights(a: seq<Action>, b: seq<Action>)
    requires forall x :: x in a <==> x in b
    ensures EvidenceHeights(a) == EvidenceHeights(b) && ProposerHeights(a) == ProposerHeights(b)
  {
    HeightsAreOfActions(a);
    HeightsAreOfActions(b);
  }

  lemma HeightsAreOfActions(a: seq<Action>)
    ensures forall h :: h in EvidenceHeights(a) <==> EvidenceBlock(h) in a
    ensures forall h :: h in ProposerHeights(a) <==> ProposerBlock(h) in a
  {
    forall h
      ensures h in EvidenceHeights(a) <==> EvidenceBlock(h) in a
      ensures h in ProposerHeights(a) <==> ProposerBlock(h) in a
    {
      if EvidenceBlock(h) in a {
        var i :| 0 <= i < |a| && a[i] == EvidenceBlock(h);
        assert a[i].height in EvidenceHeights(a);
      }
      if ProposerBlock(h) in a {
        var i :| 0 <= i < |a| && a[i] == ProposerBlock(h);
        assert a[i].height in ProposerHeights(a);
      }
    }
  }

  /** Any interleaving is as good as running the downstream jobs once, after the temporal map. */
  lemma InterleavingEqualsOnceAtTheEnd(chain: Chain, s: System, actions: seq<Action>)
    requires IndexedChain(chain) && Fresh(s) && CanRun(chain, s, actions)
    ensures CanRun(chain, s, OnceAtTheEnd(actions))
    ensures Run(chain, s, OnceAtTheEnd(actions)).map_ == Run(chain, s, actions).map_
    ensures EvidenceView(Run(chain, s, OnceAtTheEnd(actions))) == EvidenceView(Run(chain, s, actions))
    ensures ProposerView(Run(chain, s, OnceAtTheEnd(actions))) == ProposerView(Run(chain, s, actions))
  {
    MapPartRuns(chain, s, actions);
    DownstreamStaysBelow(chain, s, actions);
    DownstreamRuns(chain, s, MapPart(actions), DownstreamPart(actions));
    PartsKeepTheWork(actions);
    SourcesOfConcatenation(MapPart(actions), DownstreamPart(actions));
    SameWorkSameHeights(actions, OnceAtTheEnd(actions));
    Confluence(chain, s, actions, OnceAtTheEnd(actions));
  }

  // ---- without the cap ----

  /** An activation at height 3 opens a window from height 5. */
  lemma ActivationAtThree(event: LifecycleEvent)
    requires event == LifecycleEvent(1, 1, 3, Some(4), Activated, None, HexAddress(7), None, None)
    ensures TakesEffectLater(HeightSource(3, [event], []))
    ensures ProjectHeight(State([], {}, 0, 0), HeightSource(3, [event], [])).windows ==
            [NewWindow(ActivationOf(event, 4, 7))]
  {
    var source := HeightSource(3, [event], []);
    var steps := source.Steps();
    var o := ActivationOf(event, 4, 7);
    assert steps == [LifecycleStep(event)] && steps[..0] == [];
    assert EndSelected([], EndingFor(o), 0, 0) == ([], Closed(0));
    var created := OpenWindow([], o).0;
    assert created == [NewWindow(o)];
    var m := Prepare(State([], {}, 0, 0), 3);
    assert ApplyAll(m, steps, 3) == Apply(ApplyAll(m, steps[..0], 3), steps[0], 3);
    assert StepAbove(steps[0], 4);
  }

  /** The row of `key`, written before the temporal map reached its block, contradicts the windows. */
  ghost predicate GoesStale(chain: Chain, s: System, source: HeightSource, key: SignatureKey) {
    && IndexedChain(chain) && Fresh(s) && Enabled(s, MapHeight(source))
    && key in chain.signatures && !Enabled(s, EvidenceBlock(key.source))
    && var late := Next(chain, Next(chain, s, EvidenceBlock(key.source)), MapHeight(source));
       && key in late.evidence
       && late.evidence[key].attribution.status.NoConsensusWindow?
       && EvidenceOf(late.map_.windows, chain, key).attribution.status.Attributed?
  }

  /** Before any window exists, evidence for the block says "no window". */
  lemma EarlyEvidenceSaysNoWindow(chain: Chain, key: SignatureKey)
    requires key == SignatureKey(6, 5, 0, HexAddress(7))
    requires chain == Chain(map[key := Signature(Some(FLAG_COMMIT), true)], map[], {})
    ensures var s := Next(chain, System(State([], {}, 0, 0), 2, map[], map[]), EvidenceBlock(6));
            && s.map_ == State([], {}, 0, 0)
            && key in s.evidence && s.evidence[key].attribution.status.NoConsensusWindow?
  {
    assert KeysAt(chain, 6) == {key};
    LookupExactly([], 7, 5);
  }

  lemma LateWindowAttributes(chain: Chain, key: SignatureKey, t: Table)
    requires key == SignatureKey(6, 5, 0, HexAddress(7))
    requires chain == Chain(map[key := Signature(Some(FLAG_COMMIT), true)], map[], {})
    requires |t| == 1 && t[0].address == 7 && Covers(t[0], 5)
    ensures EvidenceOf(t, chain, key).attribution.status.Attributed?
  {
    LookupExactly(t, 7, 5);
  }

  /** The cap is needed: evidence for a block the temporal map has not reached says "no window",
      and stays wrong when the window appears. */
  lemma UncappedEvidenceIsStale()
    ensures exists chain, s, source, key :: GoesStale(chain, s, source, key)
  {
    var key := SignatureKey(6, 5, 0, HexAddress(7));
    var chain := Chain(map[key := Signature(Some(FLAG_COMMIT), true)], map[], {});
    var event := LifecycleEvent(1, 1, 3, Some(4), Activated, None, HexAddress(7), None, None);
    var source := HeightSource(3, [event], []);
    var s := System(State([], {}, 0, 0), 2, map[], map[]);
    ActivationAtThree(event);
    EarlyEvidenceSaysNoWindow(chain, key);
    LateWindowAttributes(chain, key, ProjectHeight(s.map_, source).windows);
    assert GoesStale(chain, s, source, key);
  }
}
