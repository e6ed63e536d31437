/** The sampler of one operator's status feed: what is fetched in a run, on which budget, and what a fetch
    may change. The operator's answers are arbitrary. */
module Sampler {
  import opened Wrappers
  import opened Decimal
  import opened Sorting
  import opened PrivacyGuard

  const DISCOVERY_MAX_AGE_MS := 3600000
  const AUTH_SERVER_MAX_AGE_MS := 3600000
  const DRAW_RETRY_BACKOFF_MS := 1800000
  const MAX_ENTITLED: nat := 200
  const SETTLED_STATE := "SETTLEMENT_RECONCILED"

  datatype Kind = Discovery | AsMetadata | AsJwks | Clock | Epoch | AsHealth | Draw

  datatype Key = Key(kind: Kind, epoch: Option<int>)

  datatype Reason = FetchFailed | PrivacyRefused

  /** A stored sample; `payload` is `Null` until a payload was stored. */
  datatype Sample = Sample(payload: Json, fetchedAt: Option<int>, lastHttpStatus: Option<int>,
                           lastAttemptAt: Option<int>, lastError: Option<Reason>)

  datatype Outcome = Ok(status: int, body: Json) | Failed(httpStatus: Option<int>)

  datatype Result = Stored | WasRefused | WasFailed

  type Samples = map<Key, Sample>

  /** What a run is given: the answer to its n-th request, the clock, the chain's epochs, the budgets. */
  datatype Config = Config(patterns: Patterns, asPatterns: Patterns, feed: nat -> Outcome, now: int,
                           entitledEpochs: seq<int>, finalized: set<int>, epochBudget: nat, drawBudget: nat)

  function PatternsOf(c: Config, kind: Kind): Patterns {
    if kind == AsMetadata || kind == AsJwks || kind == AsHealth then c.asPatterns else c.patterns
  }

  // ---- one fetch ----

  function Find(samples: Samples, key: Key): Option<Sample> {
    if key in samples then Some(samples[key]) else None
  }

  const NO_SAMPLE := Sample(Null, None, None, None, None)

  function Judge(c: Config, kind: Kind, outcome: Outcome): Result {
    if outcome.Failed? then WasFailed
    else if FindViolation(PatternsOf(c, kind), outcome.body, 0).Some? then WasRefused
    else Stored
  }

  /** The sample after a fetch: only a clean payload replaces the stored one. */
  function Recorded(c: Config, stored: Option<Sample>, kind: Kind, outcome: Outcome): Sample {
    var base := stored.GetOr(NO_SAMPLE).(lastAttemptAt := Some(c.now));
    match Judge(c, kind, outcome)
    case WasFailed => base.(lastHttpStatus := outcome.httpStatus, lastError := Some(FetchFailed))
    case WasRefused => base.(lastHttpStatus := Some(outcome.status), lastError := Some(PrivacyRefused))
    case Stored =>
      base.(payload := outcome.body, fetchedAt := Some(c.now), lastHttpStatus := Some(outcome.status),
            lastError := None)
  }

  datatype State = State(samples: Samples, fetches: nat)

  function Fetch(c: Config, st: State, key: Key): State {
    State(st.samples[key := Recorded(c, Find(st.samples, key), key.kind, c.feed(st.fetches))], st.fetches + 1)
  }

  // ---- reading stored payloads ----

  function Member(v: Json, name: string): Json {
    if v.Obj? then MemberOf(v.fields, name) else Null
  }

  function MemberOf(fields: seq<Field>, name: string): Json {
    if fields == [] then Null
    else if fields[0].key == name then fields[0].value
    else MemberOf(fields[1..], name)
  }

  function PayloadOf(sample: Option<Sample>): Json {
    if sample.Some? then sample.value.payload else Null
  }

  predicate IsSettled(sample: Option<Sample>) {
    Member(PayloadOf(sample), "state") == Str(SETTLED_STATE)
  }

  function EpochNumber(v: Json): Option<nat> {
    match v
    case Num(n) => if n.Floor as real == n && n >= 0.0 then Some(n.Floor) else None
    case Str(s) => if s != "" && AllDigits(s) then Some(Value(s)) else None
    case _ => None
  }

  function CurrentEpoch(samples: Samples): Option<nat> {
    EpochNumber(Member(Member(PayloadOf(Find(samples, Key(Clock, None))), "current_target"), "epoch"))
  }

  /** A sample fetched successfully less than `maxAge` ago. */
  predicate IsFresh(sample: Option<Sample>, now: int, maxAge: int) {
    sample.Some? && sample.value.fetchedAt.Some? && now - sample.value.fetchedAt.value < maxAge
  }

  // ---- the stages before the epochs ----

  function AfterDiscovery(c: Config, st: State): State {
    if IsFresh(Find(st.samples, Key(Discovery, None)), c.now, DISCOVERY_MAX_AGE_MS) then st
    else Fetch(c, st, Key(Discovery, None))
  }

  function AfterAuthServer(c: Config, st: State): State {
    if IsFresh(Find(st.samples, Key(AsMetadata, None)), c.now, AUTH_SERVER_MAX_AGE_MS) then st
    else Fetch(c, Fetch(c, st, Key(AsMetadata, None)), Key(AsJwks, None))
  }

  function AfterClock(c: Config, st: State): State {
    Fetch(c, st, Key(Clock, None))
  }

  function AfterCurrentEpoch(c: Config, st: State): State {
    var current := CurrentEpoch(st.samples);
    if current.None? || IsSettled(Find(st.samples, Key(Epoch, Some(current.value)))) then st
    else Fetch(c, st, Key(Epoch, Some(current.value)))
  }

  function AfterHealth(c: Config, st: State): State {
    Fetch(c, st, Key(AsHealth, None))
  }

  function BeforeEpochs(c: Config, st: State): State {
    AfterHealth(c, AfterCurrentEpoch(c, AfterClock(c, AfterAuthServer(c, AfterDiscovery(c, st)))))
  }

  // ---- the epoch loop ----

  datatype Counters = Counters(epochsFetched: nat, epochsFailed: nat, drawsFetched: nat, drawsFailed: nat) {
    function Epochs(): nat { epochsFetched + epochsFailed }

    function Draws(): nat { drawsFetched + drawsFailed }
  }

  datatype Progress = Progress(st: State, counters: Counters)

  function CountEpoch(n: Counters, r: Result): Counters {
    if r == Stored then n.(epochsFetched := n.epochsFetched + 1) else n.(epochsFailed := n.epochsFailed + 1)
  }

  function CountDraw(n: Counters, r: Result): Counters {
    if r == Stored then n.(drawsFetched := n.drawsFetched + 1) else n.(drawsFailed := n.drawsFailed + 1)
  }

  predicate DrawAdvertised(samples: Samples) {
    Member(PayloadOf(Find(samples, Key(Discovery, None))), "draw_record").Str?
  }

  /** No payload yet, or the chain has settled an epoch that the stored payload does not call settled. */
  predicate NeedEpoch(c: Config, samples: Samples, epoch: int) {
    var stored := Find(samples, Key(Epoch, Some(epoch)));
    !IsSettled(stored) && (PayloadOf(stored) == Null || epoch in c.finalized)
  }

  /** A 404 is final when it was seen after the feed had reported the epoch settled. */
  predicate DrawTerminal(samples: Samples, epoch: int) {
    var stored, draw := Find(samples, Key(Epoch, Some(epoch))), Find(samples, Key(Draw, Some(epoch)));
    && draw.Some? && draw.value.lastHttpStatus == Some(404)
    && IsSettled(stored) && stored.Some? && stored.value.fetchedAt.Some?
    && draw.value.lastAttemptAt.Some? && draw.value.lastAttemptAt.value >= stored.value.fetchedAt.value
  }

  predicate NeedDraw(c: Config, samples: Samples, epoch: int) {
    var stored, draw := Find(samples, Key(Epoch, Some(epoch))), Find(samples, Key(Draw, Some(epoch)));
    && DrawAdvertised(samples)
    && PayloadOf(draw) == Null
    && !DrawTerminal(samples, epoch)
    && (draw.None? || draw.value.lastAttemptAt.None? || c.now - draw.value.lastAttemptAt.value >= DRAW_RETRY_BACKOFF_MS)
    && (PayloadOf(stored) != Null || NeedEpoch(c, samples, epoch))
  }

  /** One iteration: what is needed was decided from the samples read before the loop. */
  function Visit(c: Config, seen: Samples, p: Progress, epoch: int): Progress {
    var e, d := Key(Epoch, Some(epoch)), Key(Draw, Some(epoch));
    var q := if NeedEpoch(c, seen, epoch) && p.counters.Epochs() < c.epochBudget then
               Progress(Fetch(c, p.st, e), CountEpoch(p.counters, Judge(c, Epoch, c.feed(p.st.fetches))))
             else p;
    if NeedDraw(c, seen, epoch) && p.counters.Draws() < c.drawBudget then
      Progress(Fetch(c, q.st, d), CountDraw(q.counters, Judge(c, Draw, c.feed(q.st.fetches))))
    else q
  }

  function Visits(c: Config, seen: Samples, p: Progress, epochs: seq<int>): Progress {
    if epochs == [] then p
    else Visit(c, seen, Visits(c, seen, p, epochs[..|epochs| - 1]), epochs[|epochs| - 1])
  }

  function Project(c: Config, samples: Samples): Progress {
    var st := BeforeEpochs(c, State(samples, 0));
    Visits(c, st.samples, Progress(st, Counters(0, 0, 0, 0)), Take(c.entitledEpochs, MAX_ENTITLED))
  }

  // ---- the sampler as it runs ----

  class OperatorStatus {
    var samples: Samples
    /** The requests of the current run so far. */
    var fetches: nat

    ghost function Contents(): State
      reads this
    {
      State(samples, fetches)
    }

    constructor ()
      ensures Contents() == State(map[], 0)
    {
      samples, fetches := map[], 0;
    }

    method RecordFetch(c: Config, key: Key, outcome: Outcome) returns (r: Result)
      modifies this`samples
      ensures samples == old(samples)[key := Recorded(c, Find(old(samples), key), key.kind, outcome)]
      ensures r == Judge(c, key.kind, outcome)
    {
      var base := (if key in samples then samples[key] else NO_SAMPLE).(lastAttemptAt := Some(c.now));
      if outcome.Failed? {
        samples := samples[key := base.(lastHttpStatus := outcome.httpStatus, lastError := Some(FetchFailed))];
        return WasFailed;
      }
      var violation := FindViolation(PatternsOf(c, key.kind), outcome.body, 0);
      if violation.Some? {
        samples := samples[key := base.(lastHttpStatus := Some(outcome.status), lastError := Some(PrivacyRefused))];
        return WasRefused;
      }
      samples := samples[key := base.(payload := outcome.body, fetchedAt := Some(c.now),
                                      lastHttpStatus := Some(outcome.status), lastError := None)];
      return Stored;
    }

    method Request(c: Config, key: Key) returns (r: Result)
      modifies this
      ensures Contents() == Fetch(c, old(Contents()), key)
      ensures r == Judge(c, key.kind, c.feed(old(fetches)))
    {
      var outcome := c.feed(fetches);
      fetches := fetches + 1;
      r := RecordFetch(c, key, outcome);
    }

    method FetchBeforeEpochs(c: Config)
      modifies this
      ensures Contents() == BeforeEpochs(c, old(Contents()))
    {
      var r;
      if !IsFresh(Find(samples, Key(Discovery, None)), c.now, DISCOVERY_MAX_AGE_MS) {
        r := Request(c, Key(Discovery, None));
      }
      if !IsFresh(Find(samples, Key(AsMetadata, None)), c.now, AUTH_SERVER_MAX_AGE_MS) {
        r := Request(c, Key(AsMetadata, None));
        r := Request(c, Key(AsJwks, None));
      }
      r := Request(c, Key(Clock, None));
      var current := CurrentEpoch(samples);
      if current.Some? && !IsSettled(Find(samples, Key(Epoch, Some(current.value)))) {
        r := Request(c, Key(Epoch, Some(current.value)));
      }
      r := Request(c, Key(AsHealth, None));
    }

    method VisitEpoch(c: Config, seen: Samples, before: Counters, epoch: int, epochBudgetLeft: bool,
                      drawBudgetLeft: bool)
      returns (counters: Counters)
      requires epochBudgetLeft == (before.Epochs() < c.epochBudget) && drawBudgetLeft == (before.Draws() < c.drawBudget)
      modifies this
      ensures Progress(Contents(), counters) == Visit(c, seen, Progress(old(Contents()), before), epoch)
    {
      counters := before;
      if NeedEpoch(c, seen, epoch) && epochBudgetLeft {
        var r := Request(c, Key(Epoch, Some(epoch)));
        counters := CountEpoch(counters, r);
      }
      if NeedDraw(c, seen, epoch) && drawBudgetLeft {
        var r := Request(c, Key(Draw, Some(epoch)));
        counters := CountDraw(counters, r);
      }
    }

    /** One run. The loop ends early once both budgets are spent. */
    method Run(c: Config) returns (counters: Counters)
      modifies this
      ensures var p := Project(c, old(samples));
              Contents() == p.st && counters == p.counters
    {
      fetches := 0;
      FetchBeforeEpochs(c);
      var seen, entitled := samples, Take(c.entitledEpochs, MAX_ENTITLED);
      counters := Counters(0, 0, 0, 0);
      ghost var first := Progress(Contents(), counters);
      for i := 0 to |entitled|
        invariant Progress(Contents(), counters) == Visits(c, seen, first, entitled[..i])
      {
        var epochBudgetLeft, drawBudgetLeft := counters.Epochs() < c.epochBudget, counters.Draws() < c.drawBudget;
        if !epochBudgetLeft && !drawBudgetLeft {
          SpentBudgetsEndTheRun(c, seen, first, entitled, i);
          return;
        }
        assert entitled[..i + 1][..i] == entitled[..i];
        counters := VisitEpoch(c, seen, counters, entitled[i], epochBudgetLeft, drawBudgetLeft);
      }
      assert entitled[..|entitled|] == entitled;
    }
  }

  /** Once both budgets are spent, the remaining epochs change nothing. */
  lemma {:induction false} SpentBudgetsEndTheRun(c: Config, seen: Samples, p: Progress, epochs: seq<int>, n: nat)
    requires n <= |epochs|
    requires Visits(c, seen, p, epochs[..n]).counters.Epochs() >= c.epochBudget
    requires Visits(c, seen, p, epochs[..n]).counters.Draws() >= c.drawBudget
    ensures Visits(c, seen, p, epochs) == Visits(c, seen, p, epochs[..n])
    decreases |epochs| - n
  {
    if n == |epochs| {
      assert epochs[..n] == epochs;
    } else {
      assert epochs[..n + 1][..n] == epochs[..n];
      assert Visits(c, seen, p, epochs[..n + 1]) == Visits(c, seen, p, epochs[..n]);
      SpentBudgetsEndTheRun(c, seen, p, epochs, n + 1);
    }
  }
}
