/** Every reachable interleaving of the ingestion workers: what the watermark, the cursor and the
    reported error mean, and why the pool stops. */
module IngestSafety {
  import opened Wrappers
  import opened IngestRange

  predicate Claimed(s: Shared, h: int) {
    s.start <= h < s.next
  }

  predicate FliesAt(workers: seq<Worker>, h: int) {
    exists i :: 0 <= i < |workers| && workers[i] == Ingesting(h)
  }

  /** Every claimed height is in flight, completed or failed, and only one of the three. */
  ghost predicate ClaimsInv(s: System) {
    && s.shared.start <= s.shared.next
    && (if s.shared.start <= s.shared.end then s.shared.next <= s.shared.end + 1 else s.shared.next == s.shared.start)
    && (forall h :: Claimed(s.shared, h) <==> FliesAt(s.workers, h) || h in s.completed || h in s.failed)
    && (forall h :: h in s.completed ==> h !in s.failed && !FliesAt(s.workers, h))
    && (forall h :: h in s.failed ==> !FliesAt(s.workers, h))
    && s.completed <= s.stored
  }

  /** A height belongs to one busy worker, which has not thrown; a worker that writes has completed. */
  ghost predicate WorkersInv(s: System) {
    && (forall i, j :: 0 <= i < j < |s.workers| && s.workers[i].Busy() && s.workers[j].Busy()
          ==> s.workers[i].height != s.workers[j].height)
    && (forall i :: 0 <= i < |s.workers| && s.workers[i].Busy() ==> s.workers[i].height !in s.thrown)
    && (forall i :: 0 <= i < |s.workers| && s.workers[i].Writing? ==> s.workers[i].height in s.completed)
    && (forall i :: 0 <= i < |s.workers| && s.workers[i].Stopped? ==> !MayClaim(s.shared))
  }

  /** The heights from `start` to the watermark are complete, the next one is not, and `ahead` holds
      the completed heights beyond it. */
  ghost predicate MarkInv(s: System) {
    var mark := Candidate(s.shared.start, s.shared.watermark);
    && (s.shared.watermark.Some? ==> s.shared.start <= s.shared.watermark.value)
    && (forall h :: s.shared.start <= h < mark ==> h in s.completed)
    && mark !in s.completed
    && (forall h :: h in s.shared.ahead <==> h in s.completed && mark <= h)
    && s.shared.ingested == |s.completed|
  }

  /** Hashes are those of their heights, and none is missing above the watermark. */
  ghost predicate HashInv(hashOf: int -> Option<Hash>, s: System) {
    && (forall h :: h in s.shared.hashes ==> s.shared.hashes[h] == hashOf(h))
    && (forall h :: h in s.shared.ahead ==> h in s.shared.hashes)
  }

  /** A cursor write claims a complete prefix and carries the hash of its height. */
  ghost predicate Honest(hashOf: int -> Option<Hash>, s: System, w: CursorWrite) {
    && w.hash == hashOf(w.height)
    && s.shared.start <= w.height
    && (forall h :: s.shared.start <= h <= w.height ==> h in s.completed)
  }

  ghost predicate WritesInv(hashOf: int -> Option<Hash>, s: System) {
    && (forall i :: 0 <= i < |s.workers| && s.workers[i].Writing? ==> Honest(hashOf, s, s.workers[i].write))
    && (s.cursor.Some? ==> Honest(hashOf, s, s.cursor.value))
  }

  /** The recorded error is that of the least height that threw. */
  ghost predicate ErrorInv(s: System) {
    && (s.shared.firstError.None? <==> s.thrown == map[])
    && (s.shared.firstError.Some? ==>
          && s.shared.failedHeight.Some? && s.shared.failedHeight.value in s.thrown
          && s.thrown[s.shared.failedHeight.value] == s.shared.firstError.value
          && forall h :: h in s.thrown ==> s.shared.failedHeight.value <= h)
    && s.failed <= s.thrown.Keys
  }

  ghost predicate Inv(hashOf: int -> Option<Hash>, s: System) {
    && ClaimsInv(s) && WorkersInv(s) && MarkInv(s) && HashInv(hashOf, s) && WritesInv(hashOf, s) && ErrorInv(s)
  }

  // ---- the watermark ----

  lemma {:induction false} AdvanceExactly(start: int, watermark: Option<int>, ahead: set<int>)
    requires forall h :: h in ahead ==> Candidate(start, watermark) <= h
    ensures var (w, rest) := Advance(start, watermark, ahead);
            && Candidate(start, watermark) <= Candidate(start, w)
            && (forall h :: Candidate(start, watermark) <= h < Candidate(start, w) ==> h in ahead)
            && Candidate(start, w) !in ahead
            && (forall h :: h in rest <==> h in ahead && Candidate(start, w) <= h)
            && (w != watermark ==> w.Some? && Candidate(start, watermark) <= w.value)
    decreases |ahead|
  {
    var candidate := Candidate(start, watermark);
    if candidate in ahead {
      AdvanceExactly(start, Some(candidate), ahead - {candidate});
      var (w, rest) := Advance(start, Some(candidate), ahead - {candidate});
      assert Advance(start, watermark, ahead) == (w, rest);
      forall h | candidate <= h < Candidate(start, w)
        ensures h in ahead
      {
        assert h == candidate || h in ahead - {candidate};
      }
    }
  }

  // ---- the invariant holds at the start and is kept by every step ----

  lemma StartHasInv(hashOf: int -> Option<Hash>, start: int, end: int, concurrency: int)
    ensures Inv(hashOf, Start(start, end, concurrency))
  {
  }

  lemma FliesAfter(workers: seq<Worker>, i: nat, w: Worker, h: int)
    requires i < |workers|
    requires forall a, b :: 0 <= a < b < |workers| && workers[a].Busy() && workers[b].Busy()
               ==> workers[a].height != workers[b].height
    ensures FliesAt(workers[i := w], h) <==>
              w == Ingesting(h) || (FliesAt(workers, h) && workers[i] != Ingesting(h))
  {
    var after := workers[i := w];
    if w == Ingesting(h) {
      assert after[i] == Ingesting(h);
    }
    if FliesAt(workers, h) && workers[i] != Ingesting(h) {
      var k :| 0 <= k < |workers| && workers[k] == Ingesting(h);
      assert after[k] == Ingesting(h);
    }
    if FliesAt(after, h) && w != Ingesting(h) {
      var k :| 0 <= k < |after| && after[k] == Ingesting(h);
      assert workers[k] == Ingesting(h);
      assert workers[i] != Ingesting(h);
    }
  }

  lemma FliesNext(hashOf: int -> Option<Hash>, s: System, a: Action)
    requires WorkersInv(s) && Enabled(s, a)
    ensures var s' := Next(hashOf, s, a);
            forall h :: FliesAt(s'.workers, h) <==>
              s'.workers[a.i] == Ingesting(h) || (FliesAt(s.workers, h) && s.workers[a.i] != Ingesting(h))
  {
    var s' := Next(hashOf, s, a);
    forall h
      ensures FliesAt(s'.workers, h) <==>
              s'.workers[a.i] == Ingesting(h) || (FliesAt(s.workers, h) && s.workers[a.i] != Ingesting(h))
    {
      FliesAfter(s.workers, a.i, s'.workers[a.i], h);
    }
  }

  lemma StepKeepsClaims(hashOf: int -> Option<Hash>, s: System, a: Action)
    requires ClaimsInv(s) && WorkersInv(s) && Enabled(s, a)
    ensures ClaimsInv(Next(hashOf, s, a))
  {
    FliesNext(hashOf, s, a);
    if s.workers[a.i].Ingesting? {
      assert FliesAt(s.workers, s.workers[a.i].height);
    }
  }

  /** The height a worker claims belongs to no busy worker. */
  lemma NextIsFree(s: System, i: nat)
    requires ClaimsInv(s) && WorkersInv(s) && i < |s.workers| && s.workers[i].Busy()
    ensures s.workers[i].height < s.shared.next
  {
    if s.workers[i].Ingesting? {
      assert FliesAt(s.workers, s.workers[i].height);
    }
    assert Claimed(s.shared, s.workers[i].height);
  }

  lemma ClaimKeepsWorkers(hashOf: int -> Option<Hash>, s: System, a: Action)
    requires ClaimsInv(s) && WorkersInv(s) && ErrorInv(s) && Enabled(s, a) && a.Claim?
    ensures WorkersInv(Next(hashOf, s, a))
  {
    forall i | 0 <= i < |s.workers| && s.workers[i].Busy()
      ensures s.workers[i].height < s.shared.next
    {
      NextIsFree(s, i);
    }
  }

  lemma OthersKeepWorkers(hashOf: int -> Option<Hash>, s: System, a: Action)
    requires WorkersInv(s) && Enabled(s, a) && !a.Claim?
    ensures WorkersInv(Next(hashOf, s, a))
  {
    var s' := Next(hashOf, s, a);
    assert s'.shared.next == s.shared.next;
    assert forall k :: 0 <= k < |s.workers| && k != a.i ==> s'.workers[k] == s.workers[k];
  }

  lemma StepKeepsWorkers(hashOf: int -> Option<Hash>, s: System, a: Action)
    requires Inv(hashOf, s) && Enabled(s, a)
    ensures WorkersInv(Next(hashOf, s, a))
  {
    if a.Claim? {
      ClaimKeepsWorkers(hashOf, s, a);
    } else {
      OthersKeepWorkers(hashOf, s, a);
    }
  }

  lemma StepKeepsMark(hashOf: int -> Option<Hash>, s: System, a: Action)
    requires Inv(hashOf, s) && Enabled(s, a)
    ensures MarkInv(Next(hashOf, s, a))
    ensures HashInv(hashOf, Next(hashOf, s, a))
  {
    if a.Ingested? {
      var h := s.workers[a.i].height;
      assert FliesAt(s.workers, h);
      AdvanceExactly(s.shared.start, s.shared.watermark, s.shared.ahead + {h});
    }
  }

  /** The write that a completion issues claims a complete prefix, with its own height's hash. */
  lemma CompletionIsHonest(hashOf: int -> Option<Hash>, shared: Shared, completed: set<int>, height: int)
    requires var mark := Candidate(shared.start, shared.watermark);
             && mark <= height
             && (forall h :: shared.start <= h < mark ==> h in completed)
             && (forall h :: h in shared.ahead ==> h in completed && mark <= h)
    requires forall h :: h in shared.hashes ==> shared.hashes[h] == hashOf(h)
    requires forall h :: h in shared.ahead ==> h in shared.hashes
    requires shared.watermark.Some? ==> shared.start <= shared.watermark.value
    ensures var write := WriteFor(shared.watermark, Complete(shared, height, hashOf(height)));
            write.Some? ==>
              && write.value.hash == hashOf(write.value.height)
              && shared.start <= write.value.height
              && forall h :: shared.start <= h <= write.value.height ==> h in completed + {height}
  {
    AdvanceExactly(shared.start, shared.watermark, shared.ahead + {height});
    var (w, rest) := Advance(shared.start, shared.watermark, shared.ahead + {height});
    assert Complete(shared, height, hashOf(height)).watermark == w;
    if w != shared.watermark {
      assert w.value < Candidate(shared.start, w) && w.value in shared.ahead + {height};
      forall h | shared.start <= h <= w.value
        ensures h in completed + {height}
      {
        if Candidate(shared.start, shared.watermark) <= h {
          assert h in shared.ahead + {height};
        }
      }
    }
  }

  lemma WriteIsHonest(hashOf: int -> Option<Hash>, s: System, a: Action)
    requires Inv(hashOf, s) && Enabled(s, a) && a.Ingested?
    requires Next(hashOf, s, a).workers[a.i].Writing?
    ensures Honest(hashOf, Next(hashOf, s, a), Next(hashOf, s, a).workers[a.i].write)
  {
    var h := s.workers[a.i].height;
    assert FliesAt(s.workers, h);
    CompletionIsHonest(hashOf, s.shared, s.completed, h);
  }

  lemma HonestStays(hashOf: int -> Option<Hash>, s: System, s': System, w: CursorWrite)
    requires Honest(hashOf, s, w) && s.completed <= s'.completed && s'.shared.start == s.shared.start
    ensures Honest(hashOf, s', w)
  {
  }

  lemma StepKeepsWrites(hashOf: int -> Option<Hash>, s: System, a: Action)
    requires Inv(hashOf, s) && Enabled(s, a)
    ensures WritesInv(hashOf, Next(hashOf, s, a))
  {
    var s' := Next(hashOf, s, a);
    forall i | 0 <= i < |s'.workers| && s'.workers[i].Writing?
      ensures Honest(hashOf, s', s'.workers[i].write)
    {
      if i == a.i && a.Ingested? {
        WriteIsHonest(hashOf, s, a);
      } else {
        assert s.workers[i].Writing? && s.workers[i].write == s'.workers[i].write;
        HonestStays(hashOf, s, s', s.workers[i].write);
      }
    }
    if s'.cursor.Some? {
      HonestStays(hashOf, s, s', s'.cursor.value);
    }
  }

  lemma StepKeepsErrors(hashOf: int -> Option<Hash>, s: System, a: Action)
    requires Inv(hashOf, s) && Enabled(s, a)
    ensures ErrorInv(Next(hashOf, s, a))
  {
  }

  lemma StepKeepsInv(hashOf: int -> Option<Hash>, s: System, a: Action)
    requires Inv(hashOf, s) && Enabled(s, a)
    ensures Inv(hashOf, Next(hashOf, s, a))
  {
    StepKeepsClaims(hashOf, s, a);
    StepKeepsWorkers(hashOf, s, a);
    StepKeepsMark(hashOf, s, a);
    StepKeepsWrites(hashOf, s, a);
    StepKeepsErrors(hashOf, s, a);
  }

  lemma {:induction false} RunKeepsInv(hashOf: int -> Option<Hash>, s: System, actions: seq<Action>)
    requires Inv(hashOf, s) && CanRun(hashOf, s, actions)
    ensures Inv(hashOf, Run(hashOf, s, actions))
    decreases |actions|
  {
    if actions != [] {
      StepKeepsInv(hashOf, s, actions[0]);
      RunKeepsInv(hashOf, Next(hashOf, s, actions[0]), actions[1..]);
    }
  }

  // ---- safety: what every reachable state says ----

  ghost predicate Reachable(hashOf: int -> Option<Hash>, start: int, end: int, concurrency: int, s: System) {
    exists actions :: CanRun(hashOf, Start(start, end, concurrency), actions)
                   && Run(hashOf, Start(start, end, concurrency), actions) == s
  }

  lemma ReachableHasInv(hashOf: int -> Option<Hash>, start: int, end: int, concurrency: int, s: System)
    requires Reachable(hashOf, start, end, concurrency, s)
    ensures Inv(hashOf, s)
    ensures s.shared.start == start && s.shared.end == end
    ensures |s.workers| == if concurrency < 1 then 1 else concurrency
  {
    var actions :| CanRun(hashOf, Start(start, end, concurrency), actions)
                && Run(hashOf, Start(start, end, concurrency), actions) == s;
    StartHasInv(hashOf, start, end, concurrency);
    RunKeepsInv(hashOf, Start(start, end, concurrency), actions);
    RunKeepsConfig(hashOf, Start(start, end, concurrency), actions);
  }

  lemma {:induction false} RunKeepsConfig(hashOf: int -> Option<Hash>, s: System, actions: seq<Action>)
    requires CanRun(hashOf, s, actions)
    ensures var s' := Run(hashOf, s, actions);
            s'.shared.start == s.shared.start && s'.shared.end == s.shared.end && |s'.workers| == |s.workers|
    decreases |actions|
  {
    if actions != [] {
      RunKeepsConfig(hashOf, Next(hashOf, s, actions[0]), actions[1..]);
    }
  }

  /** In every reachable interleaving the watermark is the greatest height whose whole prefix is
      ingested, and neither the persisted cursor nor any write in flight claims more, whatever order
      the writes land in; each carries the hash of the height it claims. */
  lemma WatermarkIsSafe(hashOf: int -> Option<Hash>, start: int, end: int, concurrency: int, s: System)
    requires Reachable(hashOf, start, end, concurrency, s)
    ensures forall h :: start <= h < Candidate(start, s.shared.watermark) ==> h in s.completed && h in s.stored
    ensures Candidate(start, s.shared.watermark) !in s.completed
    ensures s.cursor.Some? ==>
              && s.cursor.value.hash == hashOf(s.cursor.value.height)
              && forall h :: start <= h <= s.cursor.value.height ==> h in s.stored
    ensures forall i :: 0 <= i < |s.workers| && s.workers[i].Writing? ==>
              && s.workers[i].write.hash == hashOf(s.workers[i].write.height)
              && forall h :: start <= h <= s.workers[i].write.height ==> h in s.stored
    ensures forall h :: h in s.failed ==> Candidate(start, s.shared.watermark) <= h
  {
    ReachableHasInv(hashOf, start, end, concurrency, s);
    forall i | 0 <= i < |s.workers| && s.workers[i].Writing?
      ensures Honest(hashOf, s, s.workers[i].write)
    {
    }
    forall h | h in s.failed
      ensures Candidate(start, s.shared.watermark) <= h
    {
      assert Claimed(s.shared, h);
    }
  }

  // ---- progress ----

  function Weight(w: Worker): nat {
    match w
    case Ingesting(_) => 4
    case Writing(_, _, landed) => if landed then 2 else 3
    case Ready => 1
    case Stopped => 0
  }

  function TotalWeight(workers: seq<Worker>): nat {
    if workers == [] then 0 else TotalWeight(workers[..|workers| - 1]) + Weight(workers[|workers| - 1])
  }

  lemma {:induction false} WeightAfter(workers: seq<Worker>, i: nat, w: Worker)
    requires i < |workers|
    ensures TotalWeight(workers[i := w]) == TotalWeight(workers) - Weight(workers[i]) + Weight(w)
  {
    var n := |workers| - 1;
    if i == n {
      assert workers[i := w][..n] == workers[..n];
    } else {
      assert workers[i := w][..n] == workers[..n][i := w];
      WeightAfter(workers[..n], i, w);
    }
  }

  /** The work left: what the workers hold, and four steps for every unclaimed height. */
  function WorkLeft(s: System): nat {
    TotalWeight(s.workers) + if s.shared.next <= s.shared.end then 4 * (s.shared.end + 1 - s.shared.next) else 0
  }

  lemma StepDecreasesWork(hashOf: int -> Option<Hash>, s: System, a: Action)
    requires Enabled(s, a)
    ensures WorkLeft(Next(hashOf, s, a)) < WorkLeft(s)
  {
    WeightAfter(s.workers, a.i, Next(hashOf, s, a).workers[a.i]);
    assert Next(hashOf, s, a).workers == s.workers[a.i := Next(hashOf, s, a).workers[a.i]];
  }

  /** The pool terminates: no run is longer than the work it starts with. */
  lemma {:induction false} RunsAreBounded(hashOf: int -> Option<Hash>, s: System, actions: seq<Action>)
    requires CanRun(hashOf, s, actions)
    ensures |actions| + WorkLeft(Run(hashOf, s, actions)) <= WorkLeft(s)
    decreases |actions|
  {
    if actions != [] {
      StepDecreasesWork(hashOf, s, actions[0]);
      RunsAreBounded(hashOf, Next(hashOf, s, actions[0]), actions[1..]);
    }
  }

  /** The pool never hangs: until every worker stopped, some step is possible. */
  lemma SomeStepIsEnabled(s: System)
    ensures AllStopped(s) <==> forall a :: !Enabled(s, a)
  {
    if !AllStopped(s) {
      var i :| 0 <= i < |s.workers| && !s.workers[i].Stopped?;
      if s.workers[i].Ready? {
        assert Enabled(s, Claim(i)) || Enabled(s, Stop(i));
      } else if s.workers[i].Ingesting? {
        assert Enabled(s, Ingested(i));
      } else {
        assert Enabled(s, WriteThrew(i, ""));
      }
    }
  }

  /** The heights a run claims. */
  ghost function Claims(hashOf: int -> Option<Hash>, s: System, actions: seq<Action>): seq<int>
    requires CanRun(hashOf, s, actions)
    decreases |actions|
  {
    if actions == [] then []
    else
      (if actions[0].Claim? then [s.shared.next] else []) + Claims(hashOf, Next(hashOf, s, actions[0]), actions[1..])
  }

  /** Heights are claimed once each, in increasing order from the start. */
  lemma {:induction false} ClaimsAreConsecutive(hashOf: int -> Option<Hash>, s: System, actions: seq<Action>)
    requires CanRun(hashOf, s, actions)
    ensures var c := Claims(hashOf, s, actions);
            && |c| == Run(hashOf, s, actions).shared.next - s.shared.next
            && forall i :: 0 <= i < |c| ==> c[i] == s.shared.next + i
    decreases |actions|
  {
    if actions != [] {
      ClaimsAreConsecutive(hashOf, Next(hashOf, s, actions[0]), actions[1..]);
    }
  }

  // ---- the end of a range ----

  lemma {:induction false} RangeSize(completed: set<int>, start: int, end: int)
    requires forall h :: h in completed <==> start <= h <= end
    ensures |completed| == if start <= end then end - start + 1 else 0
    decreases end - start
  {
    if start <= end {
      RangeSize(completed - {end}, start, end - 1);
    } else {
      assert forall h :: h !in completed;
    }
  }

  /** When every worker stopped and nothing threw, the whole range is ingested and the result is
      (end, end - start + 1); an empty range gives (none, 0). */
  lemma QuietRangeIsComplete(hashOf: int -> Option<Hash>, start: int, end: int, concurrency: int, s: System)
    requires Reachable(hashOf, start, end, concurrency, s)
    requires AllStopped(s) && s.thrown == map[]
    ensures forall h :: start <= h <= end ==> h in s.stored
    ensures Finish(s.shared) == if start <= end then Returns(Some(end), end - start + 1) else Returns(None, 0)
  {
    ReachableHasInv(hashOf, start, end, concurrency, s);
    assert s.workers[0].Stopped?;
    assert s.failed == {};
    forall h
      ensures h in s.completed <==> start <= h <= end
    {
      assert !FliesAt(s.workers, h);
      assert Claimed(s.shared, h) <==> start <= h <= end;
    }
    RangeSize(s.completed, start, end);
    assert Candidate(start, s.shared.watermark) !in s.completed;
    if s.shared.watermark.Some? {
      assert s.shared.watermark.value in s.completed;
    }
  }

  /** When something threw, the range rethrows the error of the least height that threw, and the
      watermark is below every height whose ingestion failed. */
  lemma FailedRangeReportsLeast(hashOf: int -> Option<Hash>, start: int, end: int, concurrency: int, s: System)
    requires Reachable(hashOf, start, end, concurrency, s)
    requires s.thrown != map[]
    ensures s.shared.firstError.Some? && s.shared.failedHeight.Some?
    ensures s.shared.failedHeight.value in s.thrown
    ensures Finish(s.shared) == Throws(s.thrown[s.shared.failedHeight.value])
    ensures forall h :: h in s.thrown ==> s.shared.failedHeight.value <= h
    ensures forall h :: h in s.failed ==> s.shared.watermark.Some? ==> s.shared.watermark.value < h
  {
    ReachableHasInv(hashOf, start, end, concurrency, s);
    WatermarkIsSafe(hashOf, start, end, concurrency, s);
  }
}
