/** The temporal-map command: where a run starts and ends, when it seeds genesis, and which heights no run
    ever projects. */
module TemporalMapDriver {
  import opened Wrappers
  import opened TemporalMap
  import opened TemporalMapProjection

  /** One run of the command: what is asked for, how far the upstream projections are, what the genesis says,
      the rows of every height, and the heights whose transaction throws in this run. */
  datatype Invocation = Invocation(reset: bool, requestedEnd: int, upstream: int, genesis: GenesisAnswer,
                                   rows: int -> HeightSource, throwsAt: set<int>)

  /** The projection, its cursor, and the heights projected since the last reset. */
  datatype Progress = Progress(map_: State, cursor: int, projected: set<int>)

  const NOTHING := Progress(State([], {}, 0, 0), 0, {})

  function EndHeight(i: Invocation): int {
    if i.requestedEnd < i.upstream then i.requestedEnd else i.upstream
  }

  function SourceAt(i: Invocation, h: int): HeightSource {
    i.rows(h).(height := h)
  }

  /** The heights from `h` on, up to the end or the first one that throws. */
  function HeightsFrom(p: Progress, i: Invocation, h: int): Progress
    decreases EndHeight(i) - h
  {
    if EndHeight(i) < h || h in i.throwsAt then p
    else HeightsFrom(Progress(ProjectHeight(p.map_, SourceAt(i, h)), h, p.projected + {h}), i, h + 1)
  }

  /** A run starts behind the cursor. It seeds genesis when it resets or starts at height 1, and does nothing
      when there is no height to project, unless it resets. */
  function Run(before: Progress, i: Invocation): Progress {
    var p := if i.reset then NOTHING else before;
    var start := p.cursor + 1;
    if EndHeight(i) < start && !i.reset then p
    else if i.reset || start <= 1 then
      var seeded := p.(map_ := SeedFrom(p.map_, i.genesis), cursor := if i.genesis.Slots? then 1 else p.cursor);
      if i.genesis.Slots? then HeightsFrom(seeded, i, start) else seeded
    else HeightsFrom(p, i, start)
  }

  function RunAll(p: Progress, runs: seq<Invocation>): Progress {
    if runs == [] then p else Run(RunAll(p, runs[..|runs| - 1]), runs[|runs| - 1])
  }

  // ---- the command as it runs ----

  class Driver {
    const map_: Projection
    ghost var projected: set<int>

    constructor ()
      ensures Contents() == NOTHING && fresh(map_)
    {
      map_ := new Projection();
      projected := {};
    }

    ghost function Contents(): Progress
      reads this, map_
    {
      Progress(map_.Current(), map_.cursor, projected)
    }

    method ProjectFrom(i: Invocation, start: int)
      modifies this, map_
      ensures Contents() == HeightsFrom(old(Contents()), i, start)
    {
      var h := start;
      while h <= EndHeight(i) && h !in i.throwsAt
        invariant HeightsFrom(Contents(), i, h) == HeightsFrom(old(Contents()), i, start)
        decreases EndHeight(i) - h
      {
        map_.ProjectAtHeight(SourceAt(i, h));
        projected := projected + {h};
        h := h + 1;
      }
    }

    method Invoke(i: Invocation)
      modifies this, map_
      ensures Contents() == Run(old(Contents()), i)
    {
      if i.reset {
        map_.Reset();
        projected := {};
      }
      var start := map_.cursor + 1;
      if EndHeight(i) < start && !i.reset {
        return;
      }
      if i.reset || start <= 1 {
        var ok := map_.SeedGenesis(i.genesis);
        if !ok {
          return;
        }
      }
      ProjectFrom(i, start);
    }
  }

  // ---- which heights are covered ----

  /** Of the heights up to the cursor, at most height 1 was not projected. */
  ghost predicate Contiguous(p: Progress) {
    && 0 <= p.cursor
    && (forall h :: h in p.projected ==> 1 <= h <= p.cursor)
    && (forall h :: 2 <= h <= p.cursor ==> h in p.projected)
  }

  lemma {:induction false} HeightsStayContiguous(p: Progress, i: Invocation, h: int)
    requires Contiguous(p)
    requires h == p.cursor + 1 || (h == p.cursor == 1)
    ensures Contiguous(HeightsFrom(p, i, h)) && p.cursor <= HeightsFrom(p, i, h).cursor
    ensures 1 in HeightsFrom(p, i, h).projected <==>
              1 in p.projected || (h == 1 && 1 <= EndHeight(i) && 1 !in i.throwsAt)
    decreases EndHeight(i) - h
  {
    if h <= EndHeight(i) && h !in i.throwsAt {
      HeightsStayContiguous(Progress(ProjectHeight(p.map_, SourceAt(i, h)), h, p.projected + {h}), i, h + 1);
    }
  }

  /** The run seeds genesis and commits the seed. */
  predicate Seeds(before: Progress, i: Invocation) {
    i.genesis.Slots? && (i.reset || (before.cursor == 0 && 1 <= EndHeight(i)))
  }

  /** A seeding run gets to height 1 when it is within both bounds and does not throw. */
  predicate ReachesHeightOne(i: Invocation) {
    1 <= EndHeight(i) && 1 !in i.throwsAt
  }

  lemma RunStaysContiguous(before: Progress, i: Invocation)
    requires Contiguous(before)
    ensures Contiguous(Run(before, i))
    ensures Seeds(before, i) ==> 1 <= Run(before, i).cursor && (1 in Run(before, i).projected <==> ReachesHeightOne(i))
    ensures !Seeds(before, i) && i.reset ==> Run(before, i).cursor == 0
    ensures !Seeds(before, i) && !i.reset ==>
              && (1 in Run(before, i).projected <==> 1 in before.projected)
              && (Run(before, i).cursor == 0 <==> before.cursor == 0)
  {
    var p := if i.reset then NOTHING else before;
    var start := p.cursor + 1;
    if i.reset || (p.cursor == 0 && 1 <= EndHeight(i)) {
      var seeded := p.(map_ := SeedFrom(p.map_, i.genesis), cursor := 1);
      if i.genesis.Slots? {
        HeightsStayContiguous(seeded, i, start);
      }
    } else if start <= EndHeight(i) {
      HeightsStayContiguous(p, i, start);
    }
  }

  /** The last run that seeded genesis since the last reset. */
  function LastSeeding(runs: seq<Invocation>): Option<Invocation> {
    if runs == [] then None
    else
      var n := |runs| - 1;
      if Seeds(RunAll(NOTHING, runs[..n]), runs[n]) then Some(runs[n])
      else if runs[n].reset then None
      else LastSeeding(runs[..n])
  }

  lemma {:induction false} RunsStayContiguous(runs: seq<Invocation>)
    ensures Contiguous(RunAll(NOTHING, runs))
    ensures RunAll(NOTHING, runs).cursor == 0 <==> LastSeeding(runs).None?
    ensures 1 in RunAll(NOTHING, runs).projected <==>
              LastSeeding(runs).Some? && ReachesHeightOne(LastSeeding(runs).value)
  {
    if runs != [] {
      var n := |runs| - 1;
      RunsStayContiguous(runs[..n]);
      RunStaysContiguous(RunAll(NOTHING, runs[..n]), runs[n]);
    }
  }

  /** Over every sequence of runs, all heights from 1 to the cursor have been projected exactly when the run
      that seeded genesis, if any, also got to height 1. */
  lemma EveryHeightIsProjectedExactly(runs: seq<Invocation>)
    ensures var p := RunAll(NOTHING, runs);
            (forall h :: 1 <= h <= p.cursor ==> h in p.projected)
            <==> (LastSeeding(runs).Some? ==> ReachesHeightOne(LastSeeding(runs).value))
  {
    RunsStayContiguous(runs);
  }

  /** Otherwise height 1 is skipped for good: no later run without a reset projects it. */
  lemma {:induction false} SkippedForGood(before: Progress, i: Invocation, later: seq<Invocation>)
    requires Contiguous(before) && Seeds(before, i) && !ReachesHeightOne(i)
    requires forall k :: 0 <= k < |later| ==> !later[k].reset
    ensures var p := RunAll(Run(before, i), later);
            Contiguous(p) && 1 <= p.cursor && 1 !in p.projected
  {
    RunStaysContiguous(before, i);
    if later != [] {
      var n := |later| - 1;
      SkippedForGood(before, i, later[..n]);
      RunStaysContiguous(RunAll(Run(before, i), later[..n]), later[n]);
    }
  }

  /** A reset while an upstream projection is still at 0 is such a run: the next one starts at height 2. */
  lemma ResetBeforeUpstreamsSkips(before: Progress, i: Invocation, next: Invocation)
    requires Contiguous(before) && i.reset && i.genesis.Slots? && i.upstream == 0
    requires !next.reset && next.throwsAt == {} && 2 <= EndHeight(next)
    ensures var p := Run(Run(before, i), next);
            p.cursor == EndHeight(next) && forall h :: h in p.projected <==> 2 <= h <= EndHeight(next)
  {
    var seeded := Run(before, i);
    assert seeded.cursor == 1 && seeded.projected == {};
    WholeRange(seeded, next, 2);
    RunStaysContiguous(before, i);
    HeightsStayContiguous(seeded, next, 2);
  }

  lemma {:induction false} WholeRange(p: Progress, i: Invocation, h: int)
    requires i.throwsAt == {} && h <= EndHeight(i) + 1 && p.cursor == h - 1
    ensures HeightsFrom(p, i, h).cursor == EndHeight(i)
    decreases EndHeight(i) - h
  {
    if h <= EndHeight(i) {
      WholeRange(Progress(ProjectHeight(p.map_, SourceAt(i, h)), h, p.projected + {h}), i, h + 1);
    }
  }

  // ---- what one run does ----

  /** The rows of the heights from `h` up to and without `stop`. */
  function SourcesOf(i: Invocation, h: int, stop: int): seq<HeightSource>
    requires h <= stop
  {
    seq(stop - h, k requires 0 <= k < stop - h => i.rows(h + k).(height := h + k))
  }

  lemma {:induction false} FirstProjected(m: State, s: HeightSource, rest: seq<HeightSource>)
    ensures ProjectRange(m, [s] + rest) == ProjectRange(ProjectHeight(m, s), rest)
  {
    if rest == [] {
      assert [s] + rest == [s] && [s][..0] == [];
      assert ProjectRange(m, []) == m;
    } else {
      var n := |rest| - 1;
      assert ([s] + rest)[..n + 1] == [s] + rest[..n];
      FirstProjected(m, s, rest[..n]);
    }
  }

  /** From height `h` on, exactly the heights before `stop` are projected, in order. */
  ghost predicate ProjectsUntil(p: Progress, q: Progress, i: Invocation, h: int, stop: int) {
    && h <= stop
    && q.map_ == ProjectRange(p.map_, SourcesOf(i, h, stop))
    && q.cursor == (if h < stop then stop - 1 else p.cursor)
    && forall k :: k in q.projected <==> k in p.projected || h <= k < stop
  }

  predicate MayProject(i: Invocation, k: int) {
    k <= i.requestedEnd && k <= i.upstream && k !in i.throwsAt
  }

  /** The heights end behind the lesser of the requested end and the upstreams', or at the first height that throws. */
  ghost predicate EndsAt(i: Invocation, h: int, stop: int) {
    && (forall k :: h <= k < stop ==> MayProject(i, k))
    && (i.requestedEnd < stop || i.upstream < stop || stop in i.throwsAt)
  }

  lemma OneMoreHeight(p: Progress, q: Progress, i: Invocation, h: int, stop: int)
    requires ProjectsUntil(Progress(ProjectHeight(p.map_, SourceAt(i, h)), h, p.projected + {h}), q, i, h + 1, stop)
    ensures ProjectsUntil(p, q, i, h, stop)
  {
    assert SourcesOf(i, h, stop) == [SourceAt(i, h)] + SourcesOf(i, h + 1, stop);
    FirstProjected(p.map_, SourceAt(i, h), SourcesOf(i, h + 1, stop));
  }

  lemma {:induction false} HeightsExactly(p: Progress, i: Invocation, h: int) returns (stop: int)
    ensures EndsAt(i, h, stop) && ProjectsUntil(p, HeightsFrom(p, i, h), i, h, stop)
    decreases EndHeight(i) - h
  {
    if EndHeight(i) < h || h in i.throwsAt {
      stop := h;
      assert ProjectRange(p.map_, SourcesOf(i, h, stop)) == p.map_;
    } else {
      var next := Progress(ProjectHeight(p.map_, SourceAt(i, h)), h, p.projected + {h});
      stop := HeightsExactly(next, i, h + 1);
      OneMoreHeight(p, HeightsFrom(next, i, h + 1), i, h, stop);
    }
  }

  /** A run begins anew if it resets. With nothing to project it stops; with a reset or from height 1 it seeds genesis
      first, and stops if that fails; then it projects from behind the cursor it began with. */
  lemma RunExactly(before: Progress, i: Invocation) returns (stop: int)
    ensures var p := if i.reset then Progress(State([], {}, 0, 0), 0, {}) else before;
            var h := p.cursor + 1; var q := Run(before, i);
            if !i.reset && (i.requestedEnd < h || i.upstream < h) then q == before
            else if i.reset || h <= 1 then
              var seeded := p.(map_ := SeedFrom(p.map_, i.genesis), cursor := 1);
              if i.genesis.Slots? then EndsAt(i, h, stop) && ProjectsUntil(seeded, q, i, h, stop)
              else q == seeded.(cursor := p.cursor)
            else EndsAt(i, h, stop) && ProjectsUntil(p, q, i, h, stop)
  {
    var p := if i.reset then NOTHING else before;
    var h := p.cursor + 1;
    var seeded := p.(map_ := SeedFrom(p.map_, i.genesis), cursor := 1);
    stop := HeightsExactly(if i.reset || h <= 1 then seeded else p, i, h);
  }
}
