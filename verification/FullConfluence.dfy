/** When interleavings of the pipeline's jobs agree on operator and power too. */
module FullConfluence {
  import opened Wrappers
  import opened TemporalMap
  import opened BlockSignatures
  import opened WindowSafety
  import opened WindowFinality
  import opened DisjointRuns
  import opened Attribution
  import opened AttributionFields
  import opened Pipeline

  /** Every stored row is, field by field, what the present windows give. */
  ghost predicate FullySettled(chain: Chain, s: System) {
    && (forall key :: key in s.evidence ==>
          && key in chain.signatures && key.source <= s.mapCursor
          && s.evidence[key] == EvidenceOf(s.map_.windows, chain, key))
    && (forall h :: h in s.proposers ==>
          && h in chain.proposers && h <= s.mapCursor
          && s.proposers[h] == ClassifyProposer(s.map_.windows, chain.proposers[h], h))
  }

  function CursorAfter(cursor: int, sources: seq<HeightSource>): int {
    if sources == [] then cursor else sources[|sources| - 1].height
  }

  /** The heights may be projected in this order. */
  ghost predicate CanProject(cursor: int, sources: seq<HeightSource>) {
    forall k :: 0 <= k < |sources| ==>
      CursorAfter(cursor, sources[..k]) <= sources[k].height && TakesEffectLater(sources[k])
  }

  /** A signature of a block up to the cursor can have been attributed to the window, and so its power stored. */
  ghost predicate PowerSeen(t: Table, i: nat, cursor: int)
    requires i < |t|
  {
    exists h :: 0 <= h <= cursor && FindWindow(t, Query(None, Some(t[i].address), DerivedCommittedHeight(h))) == Some(i)
  }

  /** What downstream jobs can have read stays: the operator of every window that starts by the cursor, and the
      power of those that a signature can have been attributed to. */
  ghost predicate SeenStays(t: Table, t': Table, cursor: int) {
    && |t| <= |t'|
    && (forall i :: 0 <= i < |t| && t[i].from <= cursor ==> t'[i].operator == t[i].operator)
    && (forall i :: 0 <= i < |t| && PowerSeen(t, i, cursor) ==> t'[i].power == t[i].power)
  }

  /** No height changes what downstream jobs can have read. */
  ghost predicate NothingSeenChanges(m: State, cursor: int, sources: seq<HeightSource>) {
    forall k :: 0 <= k < |sources| ==>
      SeenStays(ProjectRange(m, sources[..k]).windows, ProjectRange(m, sources[..k + 1]).windows,
                CursorAfter(cursor, sources[..k]))
  }

  /** Nothing has been projected downstream. */
  function Begin(m: State, cursor: int): System {
    System(m, cursor, map[], map[])
  }

  // ---- every row stays what the windows say ----

  lemma SeenLookup(t: Table, t': Table, cursor: int, address: Address, h: int)
    requires Valid(t) && AgreesUpTo(t, t', cursor) && SeenStays(t, t', cursor)
    requires 0 <= h <= cursor
    ensures Lookup(t', address, DerivedCommittedHeight(h)) == Lookup(t, address, DerivedCommittedHeight(h))
  {
    var committed := DerivedCommittedHeight(h);
    LookupIsFinal(t, t', cursor, address, committed);
    LookupSettles(t, t', cursor, address, committed);
    var found := FindWindow(t, Query(None, Some(address), committed));
    if found.Some? {
      assert t[found.value].address == address;
      assert PowerSeen(t, found.value, cursor);
    }
  }

  lemma SeenProposer(t: Table, t': Table, cursor: int, proposer: RawAddress, h: int)
    requires Valid(t) && AgreesUpTo(t, t', cursor) && SeenStays(t, t', cursor) && h <= cursor
    ensures ClassifyProposer(t', proposer, h) == ClassifyProposer(t, proposer, h)
  {
    if proposer.HexAddress? {
      LookupIsFinal(t, t', cursor, proposer.address, h);
      LookupSettles(t, t', cursor, proposer.address, h);
    }
  }

  lemma MapKeepsFull(chain: Chain, s: System, source: HeightSource)
    requires IndexedChain(chain) && Valid(s.map_.windows) && FullySettled(chain, s) && Enabled(s, MapHeight(source))
    requires SeenStays(s.map_.windows, ProjectHeight(s.map_, source).windows, s.mapCursor)
    ensures FullySettled(chain, Next(chain, s, MapHeight(source)))
  {
    var t, t' := s.map_.windows, ProjectHeight(s.map_, source).windows;
    MapHeightAgrees(s, source);
    AgreesBelow(t, t', source.height + 1, s.mapCursor);
    forall key | key in s.evidence
      ensures EvidenceOf(t', chain, key) == EvidenceOf(t, chain, key)
    {
      if key.validator.HexAddress? {
        SeenLookup(t, t', s.mapCursor, key.validator.address, key.source);
      }
    }
    forall h | h in s.proposers
      ensures ClassifyProposer(t', chain.proposers[h], h) == ClassifyProposer(t, chain.proposers[h], h)
    {
      SeenProposer(t, t', s.mapCursor, chain.proposers[h], h);
    }
  }

  lemma AgreesBelow(t: Table, t': Table, x: int, y: int)
    requires AgreesUpTo(t, t', x) && y <= x
    ensures AgreesUpTo(t, t', y)
  {
    forall i | 0 <= i < |t|
      ensures StaysUpTo(t[i], t'[i], y)
    {
      assert StaysUpTo(t[i], t'[i], x);
    }
  }

  lemma DownstreamKeepsFull(chain: Chain, s: System, a: Action)
    requires FullySettled(chain, s) && !a.IsMap() && Enabled(s, a)
    ensures FullySettled(chain, Next(chain, s, a))
  {
  }

  lemma {:induction false} RunReaches(chain: Chain, s: System, actions: seq<Action>)
    ensures Run(chain, s, actions).mapCursor == CursorAfter(s.mapCursor, MapSources(actions))
  {
    if actions != [] {
      RunReaches(chain, s, actions[..|actions| - 1]);
    }
  }

  /** The heights a run has projected are the first of those it is to project. */
  lemma {:induction false} RunStaysFull(chain: Chain, m: State, cursor: int, sources: seq<HeightSource>,
                                        actions: seq<Action>)
    requires IndexedChain(chain) && Valid(m.windows) && NothingSeenChanges(m, cursor, sources)
    requires CanRun(chain, Begin(m, cursor), actions) && MapSources(actions) <= sources
    ensures Valid(Run(chain, Begin(m, cursor), actions).map_.windows)
    ensures FullySettled(chain, Run(chain, Begin(m, cursor), actions))
  {
    if actions != [] {
      var n := |actions| - 1;
      var s := Run(chain, Begin(m, cursor), actions[..n]);
      RunStaysFull(chain, m, cursor, sources, actions[..n]);
      if actions[n].IsMap() {
        var done := MapSources(actions[..n]);
        RunProjectsItsSources(chain, Begin(m, cursor), actions[..n]);
        RunReaches(chain, Begin(m, cursor), actions[..n]);
        NextHeightKeepsSeen(m, cursor, sources, done, actions[n].source);
        MapHeightAgrees(s, actions[n].source);
        MapKeepsFull(chain, s, actions[n].source);
      } else {
        DownstreamKeepsFull(chain, s, actions[n]);
      }
    }
  }

  lemma NextHeightKeepsSeen(m: State, cursor: int, sources: seq<HeightSource>, done: seq<HeightSource>,
                            next: HeightSource)
    requires NothingSeenChanges(m, cursor, sources) && done + [next] <= sources
    ensures SeenStays(ProjectRange(m, done).windows, ProjectHeight(ProjectRange(m, done), next).windows,
                      CursorAfter(cursor, done))
  {
    var k := |done|;
    assert sources[..k] == done && sources[..k + 1] == done + [next];
    assert (done + [next])[..k] == done;
  }

  // ---- and only then ----

  function Maps(sources: seq<HeightSource>): seq<Action> {
    if sources == [] then [] else Maps(sources[..|sources| - 1]) + [MapHeight(sources[|sources| - 1])]
  }

  lemma RunOneMore(chain: Chain, s: System, actions: seq<Action>, a: Action)
    requires CanRun(chain, s, actions) && Enabled(Run(chain, s, actions), a)
    ensures CanRun(chain, s, actions + [a])
    ensures Run(chain, s, actions + [a]) == Next(chain, Run(chain, s, actions), a)
    ensures MapSources(actions + [a]) == if a.IsMap() then MapSources(actions) + [a.source] else MapSources(actions)
  {
    assert (actions + [a])[..|actions|] == actions;
  }

  lemma SourcesOneMore(m: State, sources: seq<HeightSource>, k: nat)
    requires k < |sources|
    ensures sources[..k] + [sources[k]] == sources[..k + 1]
    ensures ProjectRange(m, sources[..k + 1]) == ProjectHeight(ProjectRange(m, sources[..k]), sources[k])
  {
    assert sources[..k + 1][..k] == sources[..k];
  }

  lemma MapsOneMore(cursor: int, sources: seq<HeightSource>, k: nat)
    requires k < |sources|
    ensures Maps(sources[..k + 1]) == Maps(sources[..k]) + [MapHeight(sources[k])]
    ensures CursorAfter(cursor, sources[..k + 1]) == sources[k].height
  {
    assert sources[..k + 1][..k] == sources[..k];
  }

  lemma {:induction false} MapsRun(chain: Chain, m: State, cursor: int, sources: seq<HeightSource>, n: nat)
    requires CanProject(cursor, sources) && n <= |sources|
    ensures CanRun(chain, Begin(m, cursor), Maps(sources[..n])) && MapSources(Maps(sources[..n])) == sources[..n]
    ensures Run(chain, Begin(m, cursor), Maps(sources[..n])) ==
            System(ProjectRange(m, sources[..n]), CursorAfter(cursor, sources[..n]), map[], map[])
  {
    if n == 0 {
      assert Maps(sources[..0]) == [];
    } else {
      var k := n - 1;
      MapsRun(chain, m, cursor, sources, k);
      MapsOneMore(cursor, sources, k);
      SourcesOneMore(m, sources, k);
      RunOneMore(chain, Begin(m, cursor), Maps(sources[..k]), MapHeight(sources[k]));
    }
  }

  lemma StaleProposer(chain: Chain, s: System, h: int)
    requires h in s.proposers && h in chain.proposers
    requires s.proposers[h] != ClassifyProposer(s.map_.windows, chain.proposers[h], h)
    ensures !FullySettled(chain, s)
  {
  }

  lemma StaleEvidence(chain: Chain, s: System, key: SignatureKey)
    requires key in s.evidence && key in chain.signatures
    requires s.evidence[key] != EvidenceOf(s.map_.windows, chain, key)
    ensures !FullySettled(chain, s)
  {
  }

  /** A block proposed under a window's address at its start tells the window's operator. */
  lemma ProposerTells(t: Table, t': Table, x: int, i: nat)
    requires Valid(t) && AgreesUpTo(t, t', x) && i < |t| && t[i].from <= x && t[i].operator != t'[i].operator
    ensures var proposer := HexAddress(t[i].address);
            ClassifyProposer(t', proposer, t[i].from) != ClassifyProposer(t, proposer, t[i].from)
  {
    FoundAtItsStart(t, i);
    LookupIsFinal(t, t', x, t[i].address, t[i].from);
  }

  /** Attributed before the height that changes the operator, it tells something else than the windows after. */
  lemma ChangedOperatorShows(s: System, source: HeightSource, i: nat, h: int, chain: Chain)
    requires Valid(s.map_.windows) && s.mapCursor <= source.height && TakesEffectLater(source)
    requires i < |s.map_.windows| && h == s.map_.windows[i].from <= s.mapCursor
    requires i < |ProjectHeight(s.map_, source).windows|
    requires s.map_.windows[i].operator != ProjectHeight(s.map_, source).windows[i].operator
    requires chain == Chain(map[], map[h := HexAddress(s.map_.windows[i].address)], {})
    ensures !FullySettled(chain, Next(chain, Next(chain, s, ProposerBlock(h)), MapHeight(source)))
  {
    var t, t' := s.map_.windows, ProjectHeight(s.map_, source).windows;
    MapHeightAgrees(s, source);
    ProposerTells(t, t', source.height + 1, i);
    var late := Next(chain, Next(chain, s, ProposerBlock(h)), MapHeight(source));
    assert h in chain.proposers && h in ProposerAt(t, chain, h);
    assert late.map_.windows == t';
    StaleProposer(chain, late, h);
  }

  /** A signature attributed to a window tells its power. */
  lemma SignatureTells(chain: Chain, t: Table, t': Table, x: int, i: nat, key: SignatureKey)
    requires Valid(t) && AgreesUpTo(t, t', x) && i < |t| && 0 <= key.committed <= x && t[i].power != t'[i].power
    requires FindWindow(t, Query(None, Some(t[i].address), key.committed)) == Some(i)
    requires key in chain.signatures && key.validator == HexAddress(t[i].address)
    ensures EvidenceOf(t', chain, key) != EvidenceOf(t, chain, key)
  {
    LookupIsFinal(t, t', x, t[i].address, key.committed);
  }

  /** The same for a signature, when the height changes the window's power. */
  lemma ChangedPowerShows(s: System, source: HeightSource, i: nat, h: int, key: SignatureKey, chain: Chain)
    requires Valid(s.map_.windows) && s.mapCursor <= source.height && TakesEffectLater(source)
    requires i < |s.map_.windows| && 0 <= h <= s.mapCursor && key.committed == DerivedCommittedHeight(h)
    requires FindWindow(s.map_.windows, Query(None, Some(s.map_.windows[i].address), key.committed)) == Some(i)
    requires i < |ProjectHeight(s.map_, source).windows|
    requires s.map_.windows[i].power != ProjectHeight(s.map_, source).windows[i].power
    requires key.source == h && key.validator == HexAddress(s.map_.windows[i].address)
    requires chain == Chain(map[key := Signature(Some(FLAG_COMMIT), true)], map[], {})
    ensures !FullySettled(chain, Next(chain, Next(chain, s, EvidenceBlock(h)), MapHeight(source)))
  {
    var t, t' := s.map_.windows, ProjectHeight(s.map_, source).windows;
    MapHeightAgrees(s, source);
    SignatureTells(chain, t, t', source.height + 1, i, key);
    var late := Next(chain, Next(chain, s, EvidenceBlock(h)), MapHeight(source));
    assert key in KeysAt(chain, h) && key in EvidenceAt(t, chain, h);
    assert late.map_.windows == t';
    StaleEvidence(chain, late, key);
  }

  ghost predicate OperatorChanges(t: Table, t': Table, cursor: int) {
    exists i :: 0 <= i < |t| && i < |t'| && t[i].from <= cursor && t'[i].operator != t[i].operator
  }

  ghost predicate PowerChanges(t: Table, t': Table, cursor: int) {
    exists i :: 0 <= i < |t| && i < |t'| && PowerSeen(t, i, cursor) && t'[i].power != t[i].power
  }

  lemma SomethingChanges(t: Table, t': Table, cursor: int)
    requires |t| <= |t'| && !SeenStays(t, t', cursor)
    ensures OperatorChanges(t, t', cursor) || PowerChanges(t, t', cursor)
  {
  }

  lemma ShowsInARun(m: State, cursor: int, sources: seq<HeightSource>, k: nat, chain: Chain, downstream: Action)
      returns (actions: seq<Action>)
    requires Valid(m.windows) && CanProject(cursor, sources) && k < |sources| && IndexedChain(chain)
    requires var s := Begin(ProjectRange(m, sources[..k]), CursorAfter(cursor, sources[..k]));
             && !downstream.IsMap() && Enabled(s, downstream)
             && !FullySettled(chain, Next(chain, Next(chain, s, downstream), MapHeight(sources[k])))
    ensures CanRun(chain, Begin(m, cursor), actions) && MapSources(actions) <= sources
    ensures !FullySettled(chain, Run(chain, Begin(m, cursor), actions))
  {
    var start, done := Begin(m, cursor), Maps(sources[..k]);
    MapsRun(chain, m, cursor, sources, k);
    RunOneMore(chain, start, done, downstream);
    RunOneMore(chain, start, done + [downstream], MapHeight(sources[k]));
    SourcesOneMore(m, sources, k);
    actions := done + [downstream] + [MapHeight(sources[k])];
  }

  lemma RunKeepsWindowsValid(m: State, cursor: int, sources: seq<HeightSource>, n: nat)
    requires Valid(m.windows) && CanProject(cursor, sources) && n <= |sources|
    ensures Valid(ProjectRange(m, sources[..n]).windows)
  {
    var empty := Chain(map[], map[], {});
    MapsRun(empty, m, cursor, sources, n);
    EveryRunSettles(empty, Begin(m, cursor), Maps(sources[..n]));
  }

  lemma TablesGrow(m: State, sources: seq<HeightSource>, k: nat)
    requires k < |sources|
    requires Valid(ProjectRange(m, sources[..k]).windows) && TakesEffectLater(sources[k])
    ensures |ProjectRange(m, sources[..k]).windows| <= |ProjectRange(m, sources[..k + 1]).windows|
  {
    SourcesOneMore(m, sources, k);
    MapHeightAgrees(Begin(ProjectRange(m, sources[..k]), 0), sources[k]);
  }

  /** For these heights, every capped interleaving on every chain has at every moment stored exactly what the
      present windows give, operator and power included, if and only if no height changes an operator or a
      power that downstream jobs can have read. */
  lemma FullyConfluentExactly(m: State, cursor: int, sources: seq<HeightSource>)
    requires Valid(m.windows) && CanProject(cursor, sources)
    ensures (forall chain, actions ::
               IndexedChain(chain) && CanRun(chain, Begin(m, cursor), actions) && MapSources(actions) <= sources ==>
                 FullySettled(chain, Run(chain, Begin(m, cursor), actions)))
            <==> NothingSeenChanges(m, cursor, sources)
  {
    if NothingSeenChanges(m, cursor, sources) {
      forall chain, actions | IndexedChain(chain) && CanRun(chain, Begin(m, cursor), actions)
        && MapSources(actions) <= sources
        ensures FullySettled(chain, Run(chain, Begin(m, cursor), actions))
      {
        RunStaysFull(chain, m, cursor, sources, actions);
      }
    } else {
      SomethingShows(m, cursor, sources);
    }
  }

  lemma SomethingShows(m: State, cursor: int, sources: seq<HeightSource>)
    requires Valid(m.windows) && CanProject(cursor, sources) && !NothingSeenChanges(m, cursor, sources)
    ensures exists chain, actions ::
              && IndexedChain(chain) && CanRun(chain, Begin(m, cursor), actions) && MapSources(actions) <= sources
              && !FullySettled(chain, Run(chain, Begin(m, cursor), actions))
  {
    var k :| 0 <= k < |sources|
          && !SeenStays(ProjectRange(m, sources[..k]).windows, ProjectRange(m, sources[..k + 1]).windows,
                        CursorAfter(cursor, sources[..k]));
    RunKeepsWindowsValid(m, cursor, sources, k);
    TablesGrow(m, sources, k);
    SourcesOneMore(m, sources, k);
    var s := Begin(ProjectRange(m, sources[..k]), CursorAfter(cursor, sources[..k]));
    var chain, downstream := ChangeShows(s, sources[k]);
    var actions := ShowsInARun(m, cursor, sources, k, chain, downstream);
  }

  lemma ChangeShows(s: System, source: HeightSource) returns (chain: Chain, downstream: Action)
    requires Valid(s.map_.windows) && s.mapCursor <= source.height && TakesEffectLater(source)
    requires |s.map_.windows| <= |ProjectHeight(s.map_, source).windows|
    requires !SeenStays(s.map_.windows, ProjectHeight(s.map_, source).windows, s.mapCursor)
    ensures IndexedChain(chain) && !downstream.IsMap() && Enabled(s, downstream)
    ensures !FullySettled(chain, Next(chain, Next(chain, s, downstream), MapHeight(source)))
  {
    var t, t' := s.map_.windows, ProjectHeight(s.map_, source).windows;
    SomethingChanges(t, t', s.mapCursor);
    if OperatorChanges(t, t', s.mapCursor) {
      var i :| 0 <= i < |t| && i < |t'| && t[i].from <= s.mapCursor && t'[i].operator != t[i].operator;
      chain := Chain(map[], map[t[i].from := HexAddress(t[i].address)], {});
      downstream := ProposerBlock(t[i].from);
      ChangedOperatorShows(s, source, i, t[i].from, chain);
    } else {
      chain, downstream := PowerChangeShows(s, source);
    }
  }

  lemma SeenAndChanged(t: Table, t': Table, cursor: int) returns (i: nat, h: int)
    requires PowerChanges(t, t', cursor)
    ensures i < |t| && i < |t'| && t'[i].power != t[i].power && 0 <= h <= cursor
    ensures FindWindow(t, Query(None, Some(t[i].address), DerivedCommittedHeight(h))) == Some(i)
  {
    i :| i < |t| && i < |t'| && PowerSeen(t, i, cursor) && t'[i].power != t[i].power;
    h :| 0 <= h <= cursor && FindWindow(t, Query(None, Some(t[i].address), DerivedCommittedHeight(h))) == Some(i);
  }

  lemma OneSignatureIsIndexed(chain: Chain, key: SignatureKey, row: Signature)
    requires chain == Chain(map[key := row], map[], {})
    requires 0 <= key.source && key.committed == DerivedCommittedHeight(key.source)
    ensures IndexedChain(chain)
  {
  }

  lemma PowerChangeShows(s: System, source: HeightSource) returns (chain: Chain, downstream: Action)
    requires Valid(s.map_.windows) && s.mapCursor <= source.height && TakesEffectLater(source)
    requires PowerChanges(s.map_.windows, ProjectHeight(s.map_, source).windows, s.mapCursor)
    ensures IndexedChain(chain) && !downstream.IsMap() && Enabled(s, downstream)
    ensures !FullySettled(chain, Next(chain, Next(chain, s, downstream), MapHeight(source)))
  {
    var i, h := SeenAndChanged(s.map_.windows, ProjectHeight(s.map_, source).windows, s.mapCursor);
    var row := Signature(Some(FLAG_COMMIT), true);
    var key := SignatureKey(h, DerivedCommittedHeight(h), 0, HexAddress(s.map_.windows[i].address));
    chain := Chain(map[key := row], map[], {});
    downstream := EvidenceBlock(h);
    OneSignatureIsIndexed(chain, key, row);
    ChangedPowerShows(s, source, i, h, key, chain);
  }

  lemma FullySettledDetermines(chain: Chain, x: System, y: System)
    requires FullySettled(chain, x) && FullySettled(chain, y) && x.map_ == y.map_
    requires x.evidence.Keys == y.evidence.Keys && x.proposers.Keys == y.proposers.Keys
    ensures x.evidence == y.evidence && x.proposers == y.proposers
  {
    assert forall h :: h in x.proposers ==> x.proposers[h] == y.proposers[h];
  }

  /** Then two interleavings of the same work store the same rows, field by field. */
  lemma FullConfluence(chain: Chain, m: State, cursor: int, a: seq<Action>, b: seq<Action>)
    requires IndexedChain(chain) && Valid(m.windows)
    requires CanRun(chain, Begin(m, cursor), a) && CanRun(chain, Begin(m, cursor), b)
    requires MapSources(a) == MapSources(b) && NothingSeenChanges(m, cursor, MapSources(a))
    requires EvidenceHeights(a) == EvidenceHeights(b) && ProposerHeights(a) == ProposerHeights(b)
    ensures Run(chain, Begin(m, cursor), a) == Run(chain, Begin(m, cursor), b)
  {
    var s := Begin(m, cursor);
    var sources := MapSources(a);
    RunStaysFull(chain, m, cursor, sources, a);
    RunStaysFull(chain, m, cursor, sources, b);
    SameWorkReachesTheSame(chain, s, a, b);
    FullySettledDetermines(chain, Run(chain, s, a), Run(chain, s, b));
  }

  lemma SameWorkReachesTheSame(chain: Chain, s: System, a: seq<Action>, b: seq<Action>)
    requires s.evidence == map[] && s.proposers == map[] && MapSources(a) == MapSources(b)
    requires EvidenceHeights(a) == EvidenceHeights(b) && ProposerHeights(a) == ProposerHeights(b)
    ensures var x, y := Run(chain, s, a), Run(chain, s, b);
            && x.map_ == y.map_ && x.mapCursor == y.mapCursor
            && x.evidence.Keys == y.evidence.Keys && x.proposers.Keys == y.proposers.Keys
  {
    RunProjectsItsSources(chain, s, a);
    RunProjectsItsSources(chain, s, b);
    RunReaches(chain, s, a);
    RunReaches(chain, s, b);
    RunCoversEvidence(chain, s, a);
    RunCoversEvidence(chain, s, b);
    RunCoversProposers(chain, s, a);
    RunCoversProposers(chain, s, b);
    forall h
      ensures h in Run(chain, s, a).proposers <==> h in Run(chain, s, b).proposers
    {
    }
  }

  /** A height whose steps are all harmless changes nothing that was read. */
  lemma HarmlessHeightKeepsSeen(m: State, source: HeightSource, cursor: int)
    requires Valid(m.windows) && TakesEffectLater(source) && 0 <= cursor <= source.height
    requires AlwaysHarmless(m.windows, source.Steps(), cursor)
    ensures SeenStays(m.windows, ProjectHeight(m, source).windows, cursor)
  {
    var steps, t := source.Steps(), m.windows;
    forall k | 0 <= k < |steps|
      ensures StepAbove(steps[k], cursor)
    {
      assert StepAbove(steps[k], source.height + 1);
    }
    FieldsUpTo(t, steps, cursor, |steps|);
    WindowsOfSteps(Prepare(m, source.height), steps, source.height);
    assert steps[..|steps|] == steps;
    forall i | 0 <= i < |t| && PowerSeen(t, i, cursor)
      ensures t[i].from <= cursor
    {
      var h :| 0 <= h <= cursor
            && FindWindow(t, Query(None, Some(t[i].address), DerivedCommittedHeight(h))) == Some(i);
    }
  }
}
