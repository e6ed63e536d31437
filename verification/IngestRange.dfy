/** Bounded-concurrency range ingestion: workers share a claim counter and a contiguous watermark.
    The functions are the code between two awaits; the class runs them on shared variables. */
module IngestRange {
  import opened Wrappers

  type Hash = string
  type Error = string

  /** A cursor write: the height it claims and the block hash it carries. */
  datatype CursorWrite = CursorWrite(height: int, hash: Option<Hash>)

  /** The variables the workers of one range share. */
  datatype Shared = Shared(
    start: int,
    end: int,
    next: int,
    ingested: nat,
    watermark: Option<int>,
    ahead: set<int>,
    hashes: map<int, Option<Hash>>,
    firstError: Option<Error>,
    failedHeight: Option<int>)

  function Begin(start: int, end: int): Shared {
    Shared(start, end, start, 0, None, {}, map[], None, None)
  }

  function Candidate(start: int, watermark: Option<int>): int {
    if watermark.None? then start else watermark.value + 1
  }

  /** Moves the watermark across the completed heights that follow it. */
  function Advance(start: int, watermark: Option<int>, ahead: set<int>): (Option<int>, set<int>)
    decreases |ahead|
  {
    var candidate := Candidate(start, watermark);
    if candidate in ahead then Advance(start, Some(candidate), ahead - {candidate}) else (watermark, ahead)
  }

  /** A worker may take the next height. */
  predicate MayClaim(s: Shared) {
    s.firstError.None? && s.next <= s.end
  }

  function Complete(s: Shared, height: int, hash: Option<Hash>): Shared {
    var (watermark, ahead) := Advance(s.start, s.watermark, s.ahead + {height});
    s.(ingested := s.ingested + 1, watermark := watermark, ahead := ahead, hashes := s.hashes[height := hash])
  }

  /** The cursor write a completion issues: one when the watermark moved, none otherwise. */
  function WriteFor(before: Option<int>, s: Shared): Option<CursorWrite> {
    if s.watermark.None? || s.watermark == before then None
    else Some(CursorWrite(s.watermark.value,
                          if s.watermark.value in s.hashes then s.hashes[s.watermark.value] else None))
  }

  /** Drops the hashes at or below the watermark. */
  function Prune(s: Shared): Shared {
    if s.watermark.None? then s
    else s.(hashes := map h | h in s.hashes && s.watermark.value < h :: s.hashes[h])
  }

  /** Keeps the error of the least height that threw. */
  function Record(s: Shared, height: int, error: Error): Shared {
    if s.firstError.None? || (s.failedHeight.Some? && height < s.failedHeight.value)
    then s.(firstError := Some(error), failedHeight := Some(height))
    else s
  }

  class Range {
    const start: int
    const end: int
    var next: int
    var heightsIngested: nat
    var lastContiguousHeight: Option<int>
    var completedAhead: set<int>
    var hashByHeight: map<int, Option<Hash>>
    var firstError: Option<Error>
    var failedHeight: Option<int>

    constructor (start: int, end: int)
      ensures Current() == Begin(start, end)
    {
      this.start, this.end, next := start, end, start;
      heightsIngested, lastContiguousHeight, completedAhead := 0, None, {};
      hashByHeight, firstError, failedHeight := map[], None, None;
    }

    function Current(): Shared
      reads this
    {
      Shared(start, end, next, heightsIngested, lastContiguousHeight, completedAhead, hashByHeight,
             firstError, failedHeight)
    }

    method AdvanceWatermark()
      modifies this`lastContiguousHeight, this`completedAhead
      ensures (lastContiguousHeight, completedAhead) ==
              Advance(start, old(lastContiguousHeight), old(completedAhead))
    {
      var candidate := if lastContiguousHeight.None? then start else lastContiguousHeight.value + 1;
      while candidate in completedAhead
        invariant candidate == Candidate(start, lastContiguousHeight)
        invariant Advance(start, lastContiguousHeight, completedAhead) ==
                  Advance(start, old(lastContiguousHeight), old(completedAhead))
        decreases |completedAhead|
      {
        completedAhead := completedAhead - {candidate};
        lastContiguousHeight := Some(candidate);
        candidate := candidate + 1;
      }
    }

    /** The loop top: stop, or claim a height before the first await. */
    method Claim() returns (height: Option<int>)
      modifies this`next
      ensures height == if MayClaim(old(Current())) then Some(old(next)) else None
      ensures next == old(next) + if height.Some? then 1 else 0
    {
      if firstError.Some? || next > end {
        return None;
      }
      height := Some(next);
      next := next + 1;
    }

    /** After a height's ingestion resolves: record it and move the watermark. */
    method OnIngested(height: int, hash: Option<Hash>) returns (write: Option<CursorWrite>)
      modifies this
      ensures Current() == Complete(old(Current()), height, hash)
      ensures write == WriteFor(old(lastContiguousHeight), Current())
    {
      heightsIngested := heightsIngested + 1;
      completedAhead := completedAhead + {height};
      hashByHeight := hashByHeight[height := hash];
      var before := lastContiguousHeight;
      AdvanceWatermark();
      if lastContiguousHeight.None? || lastContiguousHeight == before {
        return None;
      }
      var moved := lastContiguousHeight.value;
      return Some(CursorWrite(moved, if moved in hashByHeight then hashByHeight[moved] else None));
    }

    /** After a cursor write resolves: drop the hashes it no longer needs. */
    method OnCursorWritten()
      modifies this`hashByHeight
      ensures Current() == Prune(old(Current()))
    {
      if lastContiguousHeight.Some? {
        hashByHeight := map h | h in hashByHeight && lastContiguousHeight.value < h :: hashByHeight[h];
      }
    }

    method OnThrow(height: int, error: Error)
      modifies this`firstError, this`failedHeight
      ensures Current() == Record(old(Current()), height, error)
    {
      if firstError.None? || (failedHeight.Some? && height < failedHeight.value) {
        firstError := Some(error);
        failedHeight := Some(height);
      }
    }
  }

  /** How a range ends: it returns its progress, or rethrows the first error by height. */
  datatype RangeResult = Returns(lastContiguousHeight: Option<int>, heightsIngested: nat) | Throws(error: Error)

  function Finish(s: Shared): RangeResult {
    if s.firstError.Some? then Throws(s.firstError.value) else Returns(s.watermark, s.ingested)
  }

  // ---- the workers as a transition system ----

  /** A worker between two awaits; a cursor write may land long before its promise settles. */
  datatype Worker =
    | Ready
    | Ingesting(height: int)
    | Writing(height: int, write: CursorWrite, landed: bool)
    | Stopped
  {
    predicate Busy() { Ingesting? || Writing? }
  }

  /** Shared variables, workers, and what the database and the errors say:
      `stored` the heights whose rows are committed, `cursor` the persisted cursor once this range
      wrote it, `completed` the heights whose ingestion resolved, `failed` those whose ingestion
      threw, `thrown` every error a worker caught, by its height. */
  datatype System = System(
    shared: Shared,
    workers: seq<Worker>,
    stored: set<int>,
    cursor: Option<CursorWrite>,
    completed: set<int>,
    failed: set<int>,
    thrown: map<int, Error>)

  datatype Action =
    | Claim(i: nat)
    | Stop(i: nat)
    | Ingested(i: nat)
    | IngestThrew(i: nat, error: Error, committed: bool)
    | Land(i: nat)
    | WriteDone(i: nat)
    | WriteThrew(i: nat, error: Error)

  function Start(start: int, end: int, concurrency: int): System {
    var n := if concurrency < 1 then 1 else concurrency;
    System(Begin(start, end), seq(n, _ => Ready), {}, None, {}, {}, map[])
  }

  predicate Enabled(s: System, a: Action) {
    && a.i < |s.workers|
    && var w := s.workers[a.i];
       match a
       case Claim(_) => w.Ready? && MayClaim(s.shared)
       case Stop(_) => w.Ready? && !MayClaim(s.shared)
       case Ingested(_) => w.Ingesting?
       case IngestThrew(_, _, _) => w.Ingesting?
       case Land(_) => w.Writing? && !w.landed
       case WriteDone(_) => w.Writing? && w.landed
       case WriteThrew(_, _) => w.Writing?
  }

  function Become(s: System, i: nat, w: Worker): System
    requires i < |s.workers|
  {
    s.(workers := s.workers[i := w])
  }

  function Next(hashOf: int -> Option<Hash>, s: System, a: Action): System
    requires Enabled(s, a)
  {
    var w := s.workers[a.i];
    match a
    case Claim(i) =>
      Become(s, i, Ingesting(s.shared.next)).(shared := s.shared.(next := s.shared.next + 1))
    case Stop(i) => Become(s, i, Stopped)
    case Ingested(i) =>
      var shared := Complete(s.shared, w.height, hashOf(w.height));
      var write := WriteFor(s.shared.watermark, shared);
      Become(s, i, if write.Some? then Writing(w.height, write.value, false) else Ready)
        .(shared := shared, stored := s.stored + {w.height}, completed := s.completed + {w.height})
    case IngestThrew(i, e, committed) =>
      Become(s, i, Stopped)
        .(shared := Record(s.shared, w.height, e),
          stored := if committed then s.stored + {w.height} else s.stored,
          failed := s.failed + {w.height}, thrown := s.thrown[w.height := e])
    case Land(i) => Become(s, i, w.(landed := true)).(cursor := Some(w.write))
    case WriteDone(i) => Become(s, i, Ready).(shared := Prune(s.shared))
    case WriteThrew(i, e) =>
      Become(s, i, Stopped).(shared := Record(s.shared, w.height, e), thrown := s.thrown[w.height := e])
  }

  ghost predicate CanRun(hashOf: int -> Option<Hash>, s: System, actions: seq<Action>)
    decreases |actions|
  {
    actions == [] || (Enabled(s, actions[0]) && CanRun(hashOf, Next(hashOf, s, actions[0]), actions[1..]))
  }

  ghost function Run(hashOf: int -> Option<Hash>, s: System, actions: seq<Action>): System
    requires CanRun(hashOf, s, actions)
    decreases |actions|
  {
    if actions == [] then s else Run(hashOf, Next(hashOf, s, actions[0]), actions[1..])
  }

  predicate AllStopped(s: System) {
    forall i :: 0 <= i < |s.workers| ==> s.workers[i].Stopped?
  }
}
