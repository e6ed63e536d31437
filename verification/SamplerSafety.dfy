/** What no run of the sampler does, whatever the operator answers. */
module SamplerSafety {
  import opened Wrappers
  import opened Sorting
  import opened PrivacyGuard
  import opened Sampler

  // ---- final payloads ----

  /** A settled epoch payload, or any stored draw payload. */
  predicate IsFinal(key: Key, sample: Option<Sample>) {
    || (key.kind == Epoch && IsSettled(sample))
    || (key.kind == Draw && PayloadOf(sample) != Null)
  }

  /** Final payloads stay what they are. */
  ghost predicate Keeps(a: Samples, b: Samples) {
    forall key :: IsFinal(key, Find(a, key)) ==> PayloadOf(Find(b, key)) == PayloadOf(Find(a, key))
  }

  lemma FinalStaysFinal(a: Samples, b: Samples, key: Key)
    requires Keeps(a, b) && IsFinal(key, Find(a, key))
    ensures IsFinal(key, Find(b, key))
  {
  }

  lemma KeepsIsTransitive(a: Samples, b: Samples, c: Samples)
    requires Keeps(a, b) && Keeps(b, c)
    ensures Keeps(a, c)
  {
    forall key | IsFinal(key, Find(a, key))
      ensures PayloadOf(Find(c, key)) == PayloadOf(Find(a, key))
    {
      FinalStaysFinal(a, b, key);
    }
  }

  /** A fetch for a key whose sample is not final keeps every final payload. */
  lemma FetchKeeps(c: Config, st: State, key: Key)
    requires !IsFinal(key, Find(st.samples, key))
    ensures Keeps(st.samples, Fetch(c, st, key).samples)
  {
  }

  lemma StagesKeep(c: Config, st: State)
    ensures Keeps(st.samples, BeforeEpochs(c, st).samples)
  {
    var a := AfterDiscovery(c, st);
    var b := AfterAuthServer(c, a);
    var d := AfterClock(c, b);
    var e := AfterCurrentEpoch(c, d);
    FetchKeeps(c, st, Key(Discovery, None));
    AuthServerKeeps(c, a);
    FetchKeeps(c, b, Key(Clock, None));
    CurrentEpochKeeps(c, d);
    FetchKeeps(c, e, Key(AsHealth, None));
    KeepsIsTransitive(st.samples, a.samples, b.samples);
    KeepsIsTransitive(st.samples, b.samples, d.samples);
    KeepsIsTransitive(st.samples, d.samples, e.samples);
    KeepsIsTransitive(st.samples, e.samples, AfterHealth(c, e).samples);
  }

  lemma AuthServerKeeps(c: Config, st: State)
    ensures Keeps(st.samples, AfterAuthServer(c, st).samples)
  {
    var middle := Fetch(c, st, Key(AsMetadata, None));
    FetchKeeps(c, st, Key(AsMetadata, None));
    FetchKeeps(c, middle, Key(AsJwks, None));
    KeepsIsTransitive(st.samples, middle.samples, Fetch(c, middle, Key(AsJwks, None)).samples);
  }

  lemma CurrentEpochKeeps(c: Config, st: State)
    ensures Keeps(st.samples, AfterCurrentEpoch(c, st).samples)
  {
    var current := CurrentEpoch(st.samples);
    if current.Some? && !IsSettled(Find(st.samples, Key(Epoch, Some(current.value)))) {
      FetchKeeps(c, st, Key(Epoch, Some(current.value)));
    }
  }

  /** What was final when the samples were read is not needed, so a visit leaves it alone, however often an
      epoch is visited. */
  lemma VisitKeeps(c: Config, seen: Samples, p: Progress, epoch: int)
    requires Keeps(seen, p.st.samples)
    ensures Keeps(seen, Visit(c, seen, p, epoch).st.samples)
  {
    var e, d := Key(Epoch, Some(epoch)), Key(Draw, Some(epoch));
    assert NeedEpoch(c, seen, epoch) ==> !IsFinal(e, Find(seen, e));
    assert NeedDraw(c, seen, epoch) ==> !IsFinal(d, Find(seen, d));
  }

  lemma {:induction false} VisitsKeep(c: Config, seen: Samples, p: Progress, epochs: seq<int>)
    requires Keeps(seen, p.st.samples)
    ensures Keeps(seen, Visits(c, seen, p, epochs).st.samples)
  {
    if epochs != [] {
      var n := |epochs| - 1;
      VisitsKeep(c, seen, p, epochs[..n]);
      VisitKeeps(c, seen, Visits(c, seen, p, epochs[..n]), epochs[n]);
    }
  }

  /** One run replaces no epoch payload that was settled, and no draw payload that was stored, before it. */
  lemma RunKeeps(c: Config, samples: Samples)
    ensures Keeps(samples, Project(c, samples).st.samples)
  {
    var st := BeforeEpochs(c, State(samples, 0));
    StagesKeep(c, State(samples, 0));
    VisitsKeep(c, st.samples, Progress(st, Counters(0, 0, 0, 0)), Take(c.entitledEpochs, MAX_ENTITLED));
    KeepsIsTransitive(samples, st.samples, Project(c, samples).st.samples);
  }

  /** The samples after these runs, in this order. */
  function Runs(configs: seq<Config>, samples: Samples): Samples {
    if configs == [] then samples
    else Project(configs[|configs| - 1], Runs(configs[..|configs| - 1], samples)).st.samples
  }

  /** Over any sequence of runs and answers, a final payload is never replaced. */
  lemma {:induction false} RunsKeep(configs: seq<Config>, samples: Samples)
    ensures Keeps(samples, Runs(configs, samples))
  {
    if configs != [] {
      var n := |configs| - 1;
      RunsKeep(configs[..n], samples);
      RunKeeps(configs[n], Runs(configs[..n], samples));
      KeepsIsTransitive(samples, Runs(configs[..n], samples), Runs(configs, samples));
    }
  }

  // ---- the requests of a run, one by one ----

  /** These keys fetched in turn. */
  function FetchAll(c: Config, st: State, keys: seq<Key>): State {
    if keys == [] then st else Fetch(c, FetchAll(c, st, keys[..|keys| - 1]), keys[|keys| - 1])
  }

  /** The k-th request is not made for a payload that is final at that moment. */
  ghost predicate SparesFinal(c: Config, st: State, keys: seq<Key>, k: nat)
    requires k < |keys|
  {
    !IsFinal(keys[k], Find(FetchAll(c, st, keys[..k]).samples, keys[k]))
  }

  ghost predicate Careful(c: Config, st: State, keys: seq<Key>) {
    forall k :: 0 <= k < |keys| ==> SparesFinal(c, st, keys, k)
  }

  lemma {:induction false} FetchAllConcat(c: Config, st: State, a: seq<Key>, b: seq<Key>)
    ensures FetchAll(c, st, a + b) == FetchAll(c, FetchAll(c, st, a), b)
  {
    if b == [] {
      assert a + b == a;
    } else {
      assert (a + b)[..|a + b| - 1] == a + b[..|b| - 1];
      FetchAllConcat(c, st, a, b[..|b| - 1]);
    }
  }

  lemma SparesInBoth(c: Config, st: State, a: seq<Key>, b: seq<Key>, k: nat)
    requires Careful(c, st, a) && Careful(c, FetchAll(c, st, a), b) && k < |a| + |b|
    ensures SparesFinal(c, st, a + b, k)
  {
    if k < |a| {
      assert SparesFinal(c, st, a, k);
      assert (a + b)[..k] == a[..k];
    } else {
      assert SparesFinal(c, FetchAll(c, st, a), b, k - |a|);
      assert (a + b)[..k] == a + b[..k - |a|];
      FetchAllConcat(c, st, a, b[..k - |a|]);
    }
  }

  lemma CarefulConcat(c: Config, st: State, a: seq<Key>, b: seq<Key>)
    requires Careful(c, st, a) && Careful(c, FetchAll(c, st, a), b)
    ensures Careful(c, st, a + b)
    ensures FetchAll(c, st, a + b) == FetchAll(c, FetchAll(c, st, a), b)
  {
    FetchAllConcat(c, st, a, b);
    forall k | 0 <= k < |a + b|
      ensures SparesFinal(c, st, a + b, k)
    {
      SparesInBoth(c, st, a, b, k);
    }
  }

  lemma OneFetch(c: Config, st: State, key: Key)
    ensures FetchAll(c, st, [key]) == Fetch(c, st, key)
    ensures Careful(c, st, [key]) <==> !IsFinal(key, Find(st.samples, key))
  {
    assert [key][..0] == [];
    assert FetchAll(c, st, []) == st;
    assert Careful(c, st, [key]) <==> SparesFinal(c, st, [key], 0);
  }

  function DiscoveryKeys(c: Config, st: State): seq<Key> {
    if IsFresh(Find(st.samples, Key(Discovery, None)), c.now, DISCOVERY_MAX_AGE_MS) then [] else [Key(Discovery, None)]
  }

  function AuthServerKeys(c: Config, st: State): seq<Key> {
    if IsFresh(Find(st.samples, Key(AsMetadata, None)), c.now, AUTH_SERVER_MAX_AGE_MS) then []
    else [Key(AsMetadata, None)] + [Key(AsJwks, None)]
  }

  function CurrentEpochKeys(st: State): seq<Key> {
    var current := CurrentEpoch(st.samples);
    if current.None? || IsSettled(Find(st.samples, Key(Epoch, Some(current.value)))) then []
    else [Key(Epoch, Some(current.value))]
  }

  /** The requests before the epoch loop. */
  function StageKeys(c: Config, st: State): seq<Key> {
    var a := AfterDiscovery(c, st);
    var clocked := AfterClock(c, AfterAuthServer(c, a));
    DiscoveryKeys(c, st) + AuthServerKeys(c, a) + [Key(Clock, None)] + CurrentEpochKeys(clocked) + [Key(AsHealth, None)]
  }

  /** A stage fetches exactly these keys, none of them final. */
  ghost predicate StageFetches(c: Config, st: State, keys: seq<Key>, after: State) {
    Careful(c, st, keys) && FetchAll(c, st, keys) == after
  }

  lemma StagesCompose(c: Config, st: State, a: seq<Key>, middle: State, b: seq<Key>, after: State)
    requires StageFetches(c, st, a, middle) && StageFetches(c, middle, b, after)
    ensures StageFetches(c, st, a + b, after)
  {
    CarefulConcat(c, st, a, b);
  }

  lemma AuthServerFetches(c: Config, st: State)
    ensures StageFetches(c, st, AuthServerKeys(c, st), AfterAuthServer(c, st))
  {
    var metadata, jwks := Key(AsMetadata, None), Key(AsJwks, None);
    OneFetch(c, st, metadata);
    OneFetch(c, Fetch(c, st, metadata), jwks);
    StagesCompose(c, st, [metadata], Fetch(c, st, metadata), [jwks], Fetch(c, Fetch(c, st, metadata), jwks));
  }

  lemma CurrentEpochFetches(c: Config, st: State)
    ensures StageFetches(c, st, CurrentEpochKeys(st), AfterCurrentEpoch(c, st))
  {
    var current := CurrentEpoch(st.samples);
    if current.Some? {
      OneFetch(c, st, Key(Epoch, Some(current.value)));
    }
  }

  lemma StageRequests(c: Config, st: State)
    ensures StageFetches(c, st, StageKeys(c, st), BeforeEpochs(c, st))
  {
    var a := AfterDiscovery(c, st);
    var b := AfterAuthServer(c, a);
    var d := AfterClock(c, b);
    var e := AfterCurrentEpoch(c, d);
    OneFetch(c, st, Key(Discovery, None));
    AuthServerFetches(c, a);
    OneFetch(c, b, Key(Clock, None));
    CurrentEpochFetches(c, d);
    OneFetch(c, e, Key(AsHealth, None));
    var first := DiscoveryKeys(c, st) + AuthServerKeys(c, a);
    StagesCompose(c, st, DiscoveryKeys(c, st), a, AuthServerKeys(c, a), b);
    StagesCompose(c, st, first, b, [Key(Clock, None)], d);
    StagesCompose(c, st, first + [Key(Clock, None)], d, CurrentEpochKeys(d), e);
    StagesCompose(c, st, first + [Key(Clock, None)] + CurrentEpochKeys(d), e, [Key(AsHealth, None)], AfterHealth(c, e));
  }

  function EpochKeys(c: Config, seen: Samples, p: Progress, epoch: int): seq<Key> {
    if NeedEpoch(c, seen, epoch) && p.counters.Epochs() < c.epochBudget then [Key(Epoch, Some(epoch))] else []
  }

  function DrawKeys(c: Config, seen: Samples, p: Progress, epoch: int): seq<Key> {
    if NeedDraw(c, seen, epoch) && p.counters.Draws() < c.drawBudget then [Key(Draw, Some(epoch))] else []
  }

  function VisitsKeys(c: Config, seen: Samples, p: Progress, epochs: seq<int>): seq<Key> {
    if epochs == [] then []
    else
      var n := |epochs| - 1;
      var q := Visits(c, seen, p, epochs[..n]);
      VisitsKeys(c, seen, p, epochs[..n]) + (EpochKeys(c, seen, q, epochs[n]) + DrawKeys(c, seen, q, epochs[n]))
  }

  ghost predicate SameSamples(a: Samples, b: Samples, epoch: int) {
    && Find(a, Key(Epoch, Some(epoch))) == Find(b, Key(Epoch, Some(epoch)))
    && Find(a, Key(Draw, Some(epoch))) == Find(b, Key(Draw, Some(epoch)))
  }

  /** Visiting an epoch whose samples are as they were read fetches nothing final, and touches no other epoch. */
  lemma VisitRequests(c: Config, seen: Samples, p: Progress, epoch: int)
    requires SameSamples(seen, p.st.samples, epoch)
    ensures var q := Visit(c, seen, p, epoch);
            && StageFetches(c, p.st, EpochKeys(c, seen, p, epoch) + DrawKeys(c, seen, p, epoch), q.st)
            && forall other :: other != epoch ==> SameSamples(p.st.samples, q.st.samples, other)
  {
    var e, d := Key(Epoch, Some(epoch)), Key(Draw, Some(epoch));
    var middle := if EpochKeys(c, seen, p, epoch) == [] then p.st else Fetch(c, p.st, e);
    OneFetch(c, p.st, e);
    OneFetch(c, middle, d);
    assert Find(middle.samples, d) == Find(seen, d);
    StagesCompose(c, p.st, EpochKeys(c, seen, p, epoch), middle, DrawKeys(c, seen, p, epoch),
                  Visit(c, seen, p, epoch).st);
  }

  /** Outside these epochs the samples are as they were read. */
  ghost predicate SameBut(seen: Samples, now: Samples, epochs: seq<int>) {
    forall other :: other !in epochs ==> SameSamples(seen, now, other)
  }

  lemma SameButOneMore(seen: Samples, a: Samples, b: Samples, epochs: seq<int>, epoch: int)
    requires SameBut(seen, a, epochs)
    requires forall other :: other != epoch ==> SameSamples(a, b, other)
    ensures SameBut(seen, b, epochs + [epoch])
  {
    forall other | other !in epochs + [epoch]
      ensures SameSamples(seen, b, other)
    {
      assert other !in epochs && epoch in epochs + [epoch];
      assert SameSamples(seen, a, other) && SameSamples(a, b, other);
    }
  }

  /** The first `n` visits fetch exactly these keys, and leave the epochs not yet visited as they were read. */
  lemma {:induction false} VisitsRequests(c: Config, seen: Samples, p: Progress, epochs: seq<int>, n: nat)
    requires Distinct(epochs) && seen == p.st.samples && n <= |epochs|
    ensures StageFetches(c, p.st, VisitsKeys(c, seen, p, epochs[..n]), Visits(c, seen, p, epochs[..n]).st)
    ensures SameBut(seen, Visits(c, seen, p, epochs[..n]).st.samples, epochs[..n])
  {
    if n > 0 {
      var k := n - 1;
      VisitsRequests(c, seen, p, epochs, k);
      var q := Visits(c, seen, p, epochs[..k]);
      assert epochs[..n][..k] == epochs[..k];
      assert epochs[k] !in epochs[..k] && epochs[..n] == epochs[..k] + [epochs[k]];
      VisitRequests(c, seen, q, epochs[k]);
      SameButOneMore(seen, q.st.samples, Visit(c, seen, q, epochs[k]).st.samples, epochs[..k], epochs[k]);
      StagesCompose(c, p.st, VisitsKeys(c, seen, p, epochs[..k]), q.st,
                    EpochKeys(c, seen, q, epochs[k]) + DrawKeys(c, seen, q, epochs[k]),
                    Visit(c, seen, q, epochs[k]).st);
    }
  }

  /** The requests of a run, in order. */
  function RunKeys(c: Config, samples: Samples): seq<Key> {
    var st := BeforeEpochs(c, State(samples, 0));
    StageKeys(c, State(samples, 0))
    + VisitsKeys(c, st.samples, Progress(st, Counters(0, 0, 0, 0)), Take(c.entitledEpochs, MAX_ENTITLED))
  }

  lemma {:induction false} FetchesAreCounted(c: Config, st: State, keys: seq<Key>)
    ensures FetchAll(c, st, keys).fetches == st.fetches + |keys|
  {
    if keys != [] {
      FetchesAreCounted(c, st, keys[..|keys| - 1]);
    }
  }

  /** A run is its requests one after the other, and with the table's one row per entitled epoch none of them
      is made for a payload that is final at that moment. */
  lemma NoRequestForAFinalPayload(c: Config, samples: Samples)
    requires Distinct(c.entitledEpochs)
    ensures var keys := RunKeys(c, samples);
            && FetchAll(c, State(samples, 0), keys) == Project(c, samples).st
            && |keys| == Project(c, samples).st.fetches
            && forall k :: 0 <= k < |keys| ==> SparesFinal(c, State(samples, 0), keys, k)
  {
    var start := State(samples, 0);
    var st := BeforeEpochs(c, start);
    var p := Progress(st, Counters(0, 0, 0, 0));
    var epochs := Take(c.entitledEpochs, MAX_ENTITLED);
    StageRequests(c, start);
    VisitsRequests(c, st.samples, p, epochs, |epochs|);
    assert epochs[..|epochs|] == epochs;
    StagesCompose(c, start, StageKeys(c, start), st, VisitsKeys(c, st.samples, p, epochs), Project(c, samples).st);
    FetchesAreCounted(c, start, RunKeys(c, samples));
  }

  lemma CarefulNext(c: Config, st: State, keys: seq<Key>, k: nat)
    requires k < |keys| && SparesFinal(c, st, keys, k)
    ensures Keeps(FetchAll(c, st, keys[..k]).samples, FetchAll(c, st, keys[..k + 1]).samples)
  {
    assert keys[..k + 1][..k] == keys[..k];
    FetchKeeps(c, FetchAll(c, st, keys[..k]), keys[k]);
  }

  lemma {:induction false} CarefulKeeps(c: Config, st: State, keys: seq<Key>, i: nat, j: nat)
    requires Careful(c, st, keys) && i <= j <= |keys|
    ensures Keeps(FetchAll(c, st, keys[..i]).samples, FetchAll(c, st, keys[..j]).samples)
    decreases j - i
  {
    if i < j {
      var first, last := FetchAll(c, st, keys[..i]).samples, FetchAll(c, st, keys[..j]).samples;
      var before := FetchAll(c, st, keys[..j - 1]).samples;
      CarefulKeeps(c, st, keys, i, j - 1);
      CarefulNext(c, st, keys, j - 1);
      KeepsIsTransitive(first, before, last);
    }
  }

  /** So between any two moments of a run every payload that is final at the first stays, also one that only
      the run itself has stored. */
  lemma FinalAtAnyMomentStays(c: Config, samples: Samples, i: nat, j: nat)
    requires Distinct(c.entitledEpochs) && i <= j <= |RunKeys(c, samples)|
    ensures var keys := RunKeys(c, samples);
            Keeps(FetchAll(c, State(samples, 0), keys[..i]).samples, FetchAll(c, State(samples, 0), keys[..j]).samples)
  {
    NoRequestForAFinalPayload(c, samples);
    CarefulKeeps(c, State(samples, 0), RunKeys(c, samples), i, j);
  }

  // ---- what a fetch may change ----

  /** A stored payload changes only to the body of a successful answer that the guard finds clean. */
  lemma OnlyCleanPayloadsAreStored(c: Config, st: State, key: Key, other: Key)
    ensures var before, after := PayloadOf(Find(st.samples, other)), PayloadOf(Find(Fetch(c, st, key).samples, other));
            after != before ==>
              && other == key && c.feed(st.fetches).Ok? && after == c.feed(st.fetches).body
              && Clean(PatternsOf(c, key.kind), after)
  {
    if c.feed(st.fetches).Ok? {
      GuardExactly(PatternsOf(c, key.kind), c.feed(st.fetches).body, 0);
    }
  }

  /** Under these patterns, every stored payload is clean. */
  ghost predicate AllClean(c: Config, samples: Samples) {
    forall key: Key :: Clean(PatternsOf(c, key.kind), PayloadOf(Find(samples, key)))
  }

  lemma NullIsClean(p: Patterns)
    ensures Clean(p, Null)
  {
    forall path
      ensures PathOk(p, Null, 0, path)
    {
    }
  }

  lemma NothingStoredIsClean(c: Config)
    ensures AllClean(c, map[])
  {
    NullIsClean(c.patterns);
    NullIsClean(c.asPatterns);
  }

  lemma FetchStaysClean(c: Config, st: State, key: Key)
    requires AllClean(c, st.samples)
    ensures AllClean(c, Fetch(c, st, key).samples)
  {
    var after := Fetch(c, st, key).samples;
    forall other: Key
      ensures Clean(PatternsOf(c, other.kind), PayloadOf(Find(after, other)))
    {
      OnlyCleanPayloadsAreStored(c, st, key, other);
      assert Clean(PatternsOf(c, other.kind), PayloadOf(Find(st.samples, other)));
    }
  }

  lemma AuthServerStaysClean(c: Config, st: State)
    requires AllClean(c, st.samples)
    ensures AllClean(c, AfterAuthServer(c, st).samples)
  {
    var middle := Fetch(c, st, Key(AsMetadata, None));
    FetchStaysClean(c, st, Key(AsMetadata, None));
    FetchStaysClean(c, middle, Key(AsJwks, None));
  }

  lemma CurrentEpochStaysClean(c: Config, st: State)
    requires AllClean(c, st.samples)
    ensures AllClean(c, AfterCurrentEpoch(c, st).samples)
  {
    var current := CurrentEpoch(st.samples);
    if current.Some? {
      FetchStaysClean(c, st, Key(Epoch, Some(current.value)));
    }
  }

  lemma DiscoveryStaysClean(c: Config, st: State)
    requires AllClean(c, st.samples)
    ensures AllClean(c, AfterDiscovery(c, st).samples)
  {
    FetchStaysClean(c, st, Key(Discovery, None));
  }

  lemma StagesStayClean(c: Config, st: State)
    requires AllClean(c, st.samples)
    ensures AllClean(c, BeforeEpochs(c, st).samples)
  {
    var a := AfterDiscovery(c, st);
    var b := AfterAuthServer(c, a);
    var d := AfterClock(c, b);
    DiscoveryStaysClean(c, st);
    AuthServerStaysClean(c, a);
    FetchStaysClean(c, b, Key(Clock, None));
    CurrentEpochStaysClean(c, d);
    FetchStaysClean(c, AfterCurrentEpoch(c, d), Key(AsHealth, None));
  }

  lemma VisitStaysClean(c: Config, seen: Samples, p: Progress, epoch: int)
    requires AllClean(c, p.st.samples)
    ensures AllClean(c, Visit(c, seen, p, epoch).st.samples)
  {
    var e, d := Key(Epoch, Some(epoch)), Key(Draw, Some(epoch));
    var middle := p.st;
    if NeedEpoch(c, seen, epoch) && p.counters.Epochs() < c.epochBudget {
      FetchStaysClean(c, p.st, e);
      middle := Fetch(c, p.st, e);
    }
    if NeedDraw(c, seen, epoch) && p.counters.Draws() < c.drawBudget {
      FetchStaysClean(c, middle, d);
    }
  }

  lemma {:induction false} VisitsStayClean(c: Config, seen: Samples, p: Progress, epochs: seq<int>)
    requires AllClean(c, p.st.samples)
    ensures AllClean(c, Visits(c, seen, p, epochs).st.samples)
  {
    if epochs != [] {
      var n := |epochs| - 1;
      VisitsStayClean(c, seen, p, epochs[..n]);
      VisitStaysClean(c, seen, Visits(c, seen, p, epochs[..n]), epochs[n]);
    }
  }

  lemma RunStaysClean(c: Config, samples: Samples)
    requires AllClean(c, samples)
    ensures AllClean(c, Project(c, samples).st.samples)
  {
    var st := BeforeEpochs(c, State(samples, 0));
    StagesStayClean(c, State(samples, 0));
    VisitsStayClean(c, st.samples, Progress(st, Counters(0, 0, 0, 0)), Take(c.entitledEpochs, MAX_ENTITLED));
  }

  lemma RunStaysCleanFor(c: Config, d: Config, samples: Samples)
    requires SamePatterns(c, d) && AllClean(c, samples)
    ensures AllClean(c, Project(d, samples).st.samples)
  {
    SameMeaning(c, d, samples);
    RunStaysClean(d, samples);
    SameMeaning(c, d, Project(d, samples).st.samples);
  }

  /** Every payload that any sequence of runs has stored passed the guard. */
  lemma {:induction false} RunsStayClean(configs: seq<Config>, c: Config)
    requires forall d :: d in configs ==> SamePatterns(c, d)
    ensures AllClean(c, Runs(configs, map[]))
  {
    if configs == [] {
      NothingStoredIsClean(c);
    } else {
      var n := |configs| - 1;
      RunsStayClean(configs[..n], c);
      assert configs[n] in configs;
      RunStaysCleanFor(c, configs[n], Runs(configs[..n], map[]));
    }
  }

  ghost predicate SamePatterns(c: Config, d: Config) {
    c.patterns == d.patterns && c.asPatterns == d.asPatterns
  }

  lemma SameMeaning(c: Config, d: Config, samples: Samples)
    requires SamePatterns(c, d)
    ensures AllClean(c, samples) <==> AllClean(d, samples)
  {
    assert forall kind :: PatternsOf(c, kind) == PatternsOf(d, kind);
  }

  // ---- budgets ----

  /** Every request of a visit is counted, and only made within its budget. */
  lemma VisitCounts(c: Config, seen: Samples, p: Progress, epoch: int)
    requires p.counters.Epochs() <= c.epochBudget && p.counters.Draws() <= c.drawBudget
    ensures var q := Visit(c, seen, p, epoch);
            && q.counters.Epochs() <= c.epochBudget && q.counters.Draws() <= c.drawBudget
            && q.st.fetches - p.st.fetches == q.counters.Epochs() - p.counters.Epochs()
                                              + q.counters.Draws() - p.counters.Draws()
  {
  }

  lemma {:induction false} VisitsStayInBudget(c: Config, seen: Samples, p: Progress, epochs: seq<int>)
    requires p.counters.Epochs() <= c.epochBudget && p.counters.Draws() <= c.drawBudget
    ensures var q := Visits(c, seen, p, epochs);
            && q.counters.Epochs() <= c.epochBudget && q.counters.Draws() <= c.drawBudget
            && q.st.fetches - p.st.fetches == q.counters.Epochs() - p.counters.Epochs()
                                              + q.counters.Draws() - p.counters.Draws()
  {
    if epochs != [] {
      var n := |epochs| - 1;
      VisitsStayInBudget(c, seen, p, epochs[..n]);
      VisitCounts(c, seen, Visits(c, seen, p, epochs[..n]), epochs[n]);
    }
  }

  /** One run makes at most six requests and those of its two budgets, and it counts the latter exactly. */
  lemma RunStaysInBudget(c: Config, samples: Samples)
    ensures var p := Project(c, samples);
            && p.st.fetches <= 6 + c.epochBudget + c.drawBudget
            && p.counters.Epochs() <= c.epochBudget && p.counters.Draws() <= c.drawBudget
            && 2 + p.counters.Epochs() + p.counters.Draws() <= p.st.fetches
  {
    var st := BeforeEpochs(c, State(samples, 0));
    VisitsStayInBudget(c, st.samples, Progress(st, Counters(0, 0, 0, 0)), Take(c.entitledEpochs, MAX_ENTITLED));
  }

  ghost predicate Attempted(samples: Samples, key: Key, now: int) {
    key in samples && samples[key].lastAttemptAt == Some(now)
  }

  lemma FetchAttempts(c: Config, st: State, key: Key, other: Key)
    ensures Attempted(Fetch(c, st, key).samples, key, c.now)
    ensures Attempted(st.samples, other, c.now) ==> Attempted(Fetch(c, st, key).samples, other, c.now)
    ensures other != key ==> Find(Fetch(c, st, key).samples, other) == Find(st.samples, other)
  {
  }

  /** The clock and the health probe are attempted in every run; discovery, and the two documents of the
      authentication server, exactly when the last good answer is an hour old. */
  lemma DueFetchesAreMade(c: Config, st: State)
    ensures var end := BeforeEpochs(c, st).samples;
            var discovery, metadata := Find(st.samples, Key(Discovery, None)), Find(st.samples, Key(AsMetadata, None));
            && Attempted(end, Key(Clock, None), c.now) && Attempted(end, Key(AsHealth, None), c.now)
            && (if IsFresh(discovery, c.now, DISCOVERY_MAX_AGE_MS) then Find(end, Key(Discovery, None)) == discovery
                else Attempted(end, Key(Discovery, None), c.now))
            && (if IsFresh(metadata, c.now, AUTH_SERVER_MAX_AGE_MS) then Find(end, Key(AsMetadata, None)) == metadata
                else Attempted(end, Key(AsMetadata, None), c.now) && Attempted(end, Key(AsJwks, None), c.now))
  {
    var discovery, metadata, jwks := Key(Discovery, None), Key(AsMetadata, None), Key(AsJwks, None);
    var a := AfterDiscovery(c, st);
    var b := AfterAuthServer(c, a);
    FetchAttempts(c, st, discovery, metadata);
    AuthServerAttempts(c, a);
    LaterStagesKeep(c, b, discovery);
    LaterStagesKeep(c, b, metadata);
    LaterStagesKeep(c, b, jwks);
  }

  lemma AuthServerAttempts(c: Config, st: State)
    ensures var discovery, metadata, jwks := Key(Discovery, None), Key(AsMetadata, None), Key(AsJwks, None);
            var end := AfterAuthServer(c, st).samples;
            && Find(end, discovery) == Find(st.samples, discovery)
            && (if IsFresh(Find(st.samples, metadata), c.now, AUTH_SERVER_MAX_AGE_MS)
                then Find(end, metadata) == Find(st.samples, metadata)
                else Attempted(end, metadata, c.now) && Attempted(end, jwks, c.now))
  {
  }

  /** The later stages attempt the clock and the health probe, and leave the earlier samples alone. */
  lemma LaterStagesKeep(c: Config, st: State, key: Key)
    requires key.kind == Discovery || key.kind == AsMetadata || key.kind == AsJwks
    ensures var end := AfterHealth(c, AfterCurrentEpoch(c, AfterClock(c, st))).samples;
            && Find(end, key) == Find(st.samples, key)
            && Attempted(end, Key(Clock, None), c.now) && Attempted(end, Key(AsHealth, None), c.now)
  {
    var clocked := AfterClock(c, st);
    var epoched := AfterCurrentEpoch(c, clocked);
    FetchAttempts(c, st, Key(Clock, None), key);
    FetchAttempts(c, epoched, Key(AsHealth, None), key);
    FetchAttempts(c, epoched, Key(AsHealth, None), Key(Clock, None));
    assert Find(epoched.samples, key) == Find(clocked.samples, key);
    assert Attempted(epoched.samples, Key(Clock, None), c.now);
  }

  lemma VisitKeepsAttempts(c: Config, seen: Samples, p: Progress, epoch: int, key: Key)
    requires Attempted(p.st.samples, key, c.now)
    ensures Attempted(Visit(c, seen, p, epoch).st.samples, key, c.now)
  {
  }

  /** The budget is spent on the first epochs that need it: as long as some is left, none was passed over. */
  lemma {:induction false} NeededEpochsAreAttempted(c: Config, seen: Samples, p: Progress, epochs: seq<int>, e: int)
    requires e in epochs && NeedEpoch(c, seen, e)
    ensures var q := Visits(c, seen, p, epochs);
            q.counters.Epochs() < c.epochBudget ==> Attempted(q.st.samples, Key(Epoch, Some(e)), c.now)
  {
    var n := |epochs| - 1;
    var before := Visits(c, seen, p, epochs[..n]);
    assert epochs == epochs[..n] + [epochs[n]];
    if Visits(c, seen, p, epochs).counters.Epochs() < c.epochBudget && e in epochs[..n] {
      NeededEpochsAreAttempted(c, seen, p, epochs[..n], e);
      VisitKeepsAttempts(c, seen, before, epochs[n], Key(Epoch, Some(e)));
    }
  }
}
