/** What a run of the sampler requests, and what each answer leaves behind, told from the stored samples, the clock and
    the answers alone. */
module SamplerPlan {
  import opened Wrappers
  import opened Counting
  import opened Decimal
  import opened Sorting
  import opened PrivacyGuard
  import opened Sampler
  import opened SamplerSafety

  // ---- one answer ----

  /** The authentication server's documents and its health probe are judged by its own patterns. */
  function GuardOf(c: Config, kind: Kind): Patterns {
    if kind in {AsMetadata, AsJwks, AsHealth} then c.asPatterns else c.patterns
  }

  /** The answer is a success with a clean body. */
  ghost predicate IsGood(c: Config, kind: Kind, answer: Outcome) {
    answer.Ok? && Clean(GuardOf(c, kind), answer.body)
  }

  /** A payload and its time are replaced by a clean answer and by nothing else; the attempt, the status and the error
      are always those of the last answer. */
  ghost predicate IsAnswered(c: Config, before: Option<Sample>, after: Sample, kind: Kind, answer: Outcome) {
    && after.lastAttemptAt == Some(c.now)
    && (if IsGood(c, kind, answer) then after.payload == answer.body && after.fetchedAt == Some(c.now)
        else if before.Some? then after.payload == before.value.payload && after.fetchedAt == before.value.fetchedAt
        else after.payload == Null && after.fetchedAt == None)
    && (match answer
        case Ok(status, _) =>
          && after.lastHttpStatus == Some(status)
          && after.lastError == (if IsGood(c, kind, answer) then None else Some(PrivacyRefused))
        case Failed(status) => after.lastHttpStatus == status && after.lastError == Some(FetchFailed))
  }

  lemma JudgeExactly(c: Config, kind: Kind, answer: Outcome)
    ensures Judge(c, kind, answer) == Stored <==> IsGood(c, kind, answer)
    ensures Judge(c, kind, answer) == WasFailed <==> answer.Failed?
  {
    if answer.Ok? {
      GuardExactly(GuardOf(c, kind), answer.body, 0);
    }
  }

  /** A request changes its own sample only, by the next answer. */
  lemma FetchExactly(c: Config, st: State, key: Key)
    ensures var st' := Fetch(c, st, key);
            && st'.fetches == st.fetches + 1
            && st'.samples.Keys == st.samples.Keys + {key}
            && (forall other :: other in st.samples && other != key ==> st'.samples[other] == st.samples[other])
            && IsAnswered(c, if key in st.samples then Some(st.samples[key]) else None, st'.samples[key], key.kind,
                          c.feed(st.fetches))
  {
    JudgeExactly(c, key.kind, c.feed(st.fetches));
  }

  // ---- what is due ----

  /** No good answer within the last hour. */
  predicate IsDue(samples: Samples, kind: Kind, now: int) {
    var key := Key(kind, None);
    key in samples && samples[key].fetchedAt.Some? ==> now - samples[key].fetchedAt.value >= 3600000
  }

  /** The first member of this name. */
  ghost predicate HasMember(v: Json, name: string, x: Json) {
    v.Obj? && exists i :: 0 <= i < |v.fields| && v.fields[i] == Field(name, x)
                          && forall j :: 0 <= j < i ==> v.fields[j].key != name
  }

  lemma OtherMember(fields: seq<Field>, name: string, x: Json)
    requires fields != [] && fields[0].key != name
    ensures HasMember(Obj(fields), name, x) <==> HasMember(Obj(fields[1..]), name, x)
  {
    var rest := fields[1..];
    if i :| 0 <= i < |rest| && rest[i] == Field(name, x) && forall j :: 0 <= j < i ==> rest[j].key != name {
      assert fields[i + 1] == Field(name, x);
      assert forall j :: 0 < j < i + 1 ==> fields[j] == rest[j - 1];
    }
    if i :| 0 <= i < |fields| && fields[i] == Field(name, x) && forall j :: 0 <= j < i ==> fields[j].key != name {
      assert rest[i - 1] == Field(name, x);
      assert forall j :: 0 <= j < i - 1 ==> rest[j] == fields[j + 1];
    }
  }

  lemma {:induction false} MemberOfExactly(fields: seq<Field>, name: string, x: Json)
    requires x != Null
    ensures MemberOf(fields, name) == x <==> HasMember(Obj(fields), name, x)
  {
    if fields != [] && fields[0].key != name {
      MemberOfExactly(fields[1..], name, x);
      OtherMember(fields, name, x);
    } else if fields != [] {
      assert fields[0] == Field(name, fields[0].value);
    }
  }

  lemma MemberExactly(v: Json, name: string, x: Json)
    requires x != Null
    ensures Member(v, name) == x <==> HasMember(v, name, x)
  {
    if v.Obj? {
      MemberOfExactly(v.fields, name, x);
    }
  }

  ghost predicate IsSettledEpoch(samples: Samples, epoch: int) {
    var key := Key(Epoch, Some(epoch));
    key in samples && HasMember(samples[key].payload, "state", Str("SETTLEMENT_RECONCILED"))
  }

  predicate HasPayload(samples: Samples, key: Key) {
    key in samples && samples[key].payload != Null
  }

  /** A natural number, as a JSON number or as digits. */
  predicate IsEpochNumber(v: Json, n: nat) {
    v == Num(n as real) || (v.Str? && v.s != "" && AllDigits(v.s) && Value(v.s) == n)
  }

  ghost predicate IsCurrentEpoch(samples: Samples, n: nat) {
    Key(Clock, None) in samples && exists target, epoch ::
      HasMember(samples[Key(Clock, None)].payload, "current_target", target) && HasMember(target, "epoch", epoch)
      && IsEpochNumber(epoch, n)
  }

  lemma SettledExactly(samples: Samples, epoch: int)
    ensures IsSettled(Find(samples, Key(Epoch, Some(epoch)))) <==> IsSettledEpoch(samples, epoch)
  {
    var payload := PayloadOf(Find(samples, Key(Epoch, Some(epoch))));
    MemberExactly(payload, "state", Str("SETTLEMENT_RECONCILED"));
  }

  lemma EpochNumberExactly(v: Json, n: nat)
    ensures EpochNumber(v) == Some(n) <==> IsEpochNumber(v, n)
  {
    assert (n as real).Floor == n;
  }

  lemma CurrentEpochExactly(samples: Samples, n: nat)
    ensures CurrentEpoch(samples) == Some(n) <==> IsCurrentEpoch(samples, n)
  {
    var payload := PayloadOf(Find(samples, Key(Clock, None)));
    var target := Member(payload, "current_target");
    var epoch := Member(target, "epoch");
    EpochNumberExactly(epoch, n);
    if target != Null {
      MemberExactly(payload, "current_target", target);
    }
    if epoch != Null {
      MemberExactly(target, "epoch", epoch);
    }
    if IsCurrentEpoch(samples, n) {
      var t, e :| HasMember(payload, "current_target", t) && HasMember(t, "epoch", e) && IsEpochNumber(e, n);
      MemberExactly(payload, "current_target", t);
      MemberExactly(t, "epoch", e);
    }
  }

  lemma DueExactly(samples: Samples, kind: Kind, now: int)
    ensures IsDue(samples, kind, now) <==> !IsFresh(Find(samples, Key(kind, None)), now, 3600000)
  {
  }

  // ---- the requests before the epochs ----

  /** Discovery and the authentication server's two documents if they are due, and the clock. */
  function FirstRequests(samples: Samples, now: int): seq<Key> {
    (if IsDue(samples, Discovery, now) then [Key(Discovery, None)] else [])
    + (if IsDue(samples, AsMetadata, now) then [Key(AsMetadata, None), Key(AsJwks, None)] else [])
    + [Key(Clock, None)]
  }

  /** The current epoch that the clock then names, unless it is settled, and the health probe. */
  ghost predicate AreStageRequests(c: Config, samples: Samples, keys: seq<Key>) {
    var first := FirstRequests(samples, c.now);
    var clocked := FetchAll(c, State(samples, 0), first).samples;
    || (keys == first + [Key(AsHealth, None)]
        && forall n: nat :: IsCurrentEpoch(clocked, n) ==> IsSettledEpoch(clocked, n))
    || (exists n: nat :: keys == first + [Key(Epoch, Some(n))] + [Key(AsHealth, None)]
          && IsCurrentEpoch(clocked, n) && !IsSettledEpoch(clocked, n))
  }

  lemma FirstRequestsExactly(c: Config, samples: Samples)
    ensures var st := State(samples, 0); var a := AfterDiscovery(c, st);
            && DiscoveryKeys(c, st) + AuthServerKeys(c, a) + [Key(Clock, None)] == FirstRequests(samples, c.now)
            && FetchAll(c, st, FirstRequests(samples, c.now)) == AfterClock(c, AfterAuthServer(c, a))
  {
    var st := State(samples, 0);
    var a := AfterDiscovery(c, st);
    var b := AfterAuthServer(c, a);
    DueExactly(samples, Discovery, c.now);
    DueExactly(samples, AsMetadata, c.now);
    OneFetch(c, st, Key(Discovery, None));
    AuthServerFetches(c, a);
    OneFetch(c, b, Key(Clock, None));
    assert FetchAll(c, st, []) == st;
    FetchAllConcat(c, st, DiscoveryKeys(c, st), AuthServerKeys(c, a));
    FetchAllConcat(c, st, DiscoveryKeys(c, st) + AuthServerKeys(c, a), [Key(Clock, None)]);
    assert [Key(AsMetadata, None)] + [Key(AsJwks, None)] == [Key(AsMetadata, None), Key(AsJwks, None)];
  }

  /** The requests before the epochs are exactly these, in this order. */
  lemma StageRequestsExactly(c: Config, samples: Samples)
    ensures AreStageRequests(c, samples, StageKeys(c, State(samples, 0)))
    ensures FetchAll(c, State(samples, 0), StageKeys(c, State(samples, 0))) == BeforeEpochs(c, State(samples, 0))
  {
    var st := State(samples, 0);
    StageRequests(c, st);
    FirstRequestsExactly(c, samples);
    var clocked := AfterClock(c, AfterAuthServer(c, AfterDiscovery(c, st)));
    var current := CurrentEpoch(clocked.samples);
    if current.Some? {
      CurrentEpochExactly(clocked.samples, current.value);
      SettledExactly(clocked.samples, current.value);
    }
    forall n: nat | IsCurrentEpoch(clocked.samples, n)
      ensures current == Some(n)
    {
      CurrentEpochExactly(clocked.samples, n);
    }
    var first := FirstRequests(samples, c.now);
    if CurrentEpochKeys(clocked) == [] {
      assert first + [] == first;
    }
  }

  // ---- the requests of the epoch loop ----

  /** No payload yet, or the chain has finalized an epoch whose payload does not say so. */
  ghost predicate NeedsEpoch(c: Config, seen: Samples, epoch: int) {
    !IsSettledEpoch(seen, epoch) && (!HasPayload(seen, Key(Epoch, Some(epoch))) || epoch in c.finalized)
  }

  ghost predicate AdvertisesDraws(seen: Samples) {
    Key(Discovery, None) in seen
    && exists s: string :: HasMember(seen[Key(Discovery, None)].payload, "draw_record", Str(s))
  }

  /** The last attempt found nothing, after the epoch had been seen settled. */
  ghost predicate HasNoDraw(seen: Samples, epoch: int) {
    var e, d := Key(Epoch, Some(epoch)), Key(Draw, Some(epoch));
    && d in seen && seen[d].lastHttpStatus == Some(404) && seen[d].lastAttemptAt.Some?
    && IsSettledEpoch(seen, epoch) && seen[e].fetchedAt.Some?
    && seen[d].lastAttemptAt.value >= seen[e].fetchedAt.value
  }

  /** An advertised draw without payload that was not tried within half an hour, of an epoch that has or gets one. */
  ghost predicate NeedsDraw(c: Config, seen: Samples, epoch: int) {
    var d := Key(Draw, Some(epoch));
    && AdvertisesDraws(seen) && !HasPayload(seen, d) && !HasNoDraw(seen, epoch)
    && (d in seen && seen[d].lastAttemptAt.Some? ==> c.now - seen[d].lastAttemptAt.value >= 1800000)
    && (HasPayload(seen, Key(Epoch, Some(epoch))) || NeedsEpoch(c, seen, epoch))
  }

  lemma NeedsEpochExactly(c: Config, seen: Samples, epoch: int)
    ensures NeedEpoch(c, seen, epoch) <==> NeedsEpoch(c, seen, epoch)
  {
    SettledExactly(seen, epoch);
  }

  lemma AdvertisedExactly(seen: Samples)
    ensures DrawAdvertised(seen) <==> AdvertisesDraws(seen)
  {
    var payload := PayloadOf(Find(seen, Key(Discovery, None)));
    var member := Member(payload, "draw_record");
    if member.Str? {
      MemberExactly(payload, "draw_record", member);
      assert HasMember(payload, "draw_record", Str(member.s));
    }
    if AdvertisesDraws(seen) {
      var s: string :| HasMember(payload, "draw_record", Str(s));
      MemberExactly(payload, "draw_record", Str(s));
    }
  }

  lemma NeedsDrawExactly(c: Config, seen: Samples, epoch: int)
    ensures NeedDraw(c, seen, epoch) <==> NeedsDraw(c, seen, epoch)
  {
    SettledExactly(seen, epoch);
    AdvertisedExactly(seen);
  }

  /** Of the epochs before the i-th, those that need a request. */
  ghost function NeedyEpochs(c: Config, seen: Samples, epochs: seq<int>, i: nat): set<nat>
    requires i <= |epochs|
  {
    set j: nat | j < i && NeedsEpoch(c, seen, epochs[j])
  }

  ghost function NeedyDraws(c: Config, seen: Samples, epochs: seq<int>, i: nat): set<nat>
    requires i <= |epochs|
  {
    set j: nat | j < i && NeedsDraw(c, seen, epochs[j])
  }

  /** The budget goes to the first epochs that need a request. */
  ghost predicate GetsEpoch(c: Config, seen: Samples, epochs: seq<int>, i: nat)
    requires i < |epochs|
  {
    NeedsEpoch(c, seen, epochs[i]) && |NeedyEpochs(c, seen, epochs, i)| < c.epochBudget
  }

  ghost predicate GetsDraw(c: Config, seen: Samples, epochs: seq<int>, i: nat)
    requires i < |epochs|
  {
    NeedsDraw(c, seen, epochs[i]) && |NeedyDraws(c, seen, epochs, i)| < c.drawBudget
  }

  /** The requests for the first `n` epochs: each epoch's own, then its draw's. */
  ghost function PlanOf(c: Config, seen: Samples, epochs: seq<int>, n: nat): seq<Key>
    requires n <= |epochs|
  {
    if n == 0 then []
    else
      PlanOf(c, seen, epochs, n - 1)
      + (if GetsEpoch(c, seen, epochs, n - 1) then [Key(Epoch, Some(epochs[n - 1]))] else [])
      + (if GetsDraw(c, seen, epochs, n - 1) then [Key(Draw, Some(epochs[n - 1]))] else [])
  }

  lemma SetOneMore(a: set<nat>, b: set<nat>, n: nat, more: bool)
    requires n !in a && forall j :: j in b <==> j in a || (more && j == n)
    ensures |b| == |a| + if more then 1 else 0
  {
    assert b == a + if more then {n} else {};
  }

  lemma NeedyEpochOneMore(c: Config, seen: Samples, epochs: seq<int>, i: nat)
    requires i < |epochs|
    ensures |NeedyEpochs(c, seen, epochs, i + 1)| ==
            |NeedyEpochs(c, seen, epochs, i)| + if NeedsEpoch(c, seen, epochs[i]) then 1 else 0
  {
    SetOneMore(NeedyEpochs(c, seen, epochs, i), NeedyEpochs(c, seen, epochs, i + 1), i, NeedsEpoch(c, seen, epochs[i]));
  }

  lemma NeedyDrawOneMore(c: Config, seen: Samples, epochs: seq<int>, i: nat)
    requires i < |epochs|
    ensures |NeedyDraws(c, seen, epochs, i + 1)| ==
            |NeedyDraws(c, seen, epochs, i)| + if NeedsDraw(c, seen, epochs[i]) then 1 else 0
  {
    SetOneMore(NeedyDraws(c, seen, epochs, i), NeedyDraws(c, seen, epochs, i + 1), i, NeedsDraw(c, seen, epochs[i]));
  }

  /** Of these requests, those of a kind that get a good answer. */
  ghost function GoodAnswers(c: Config, keys: seq<Key>, kind: Kind, from: nat): set<nat> {
    set k: nat | k < |keys| && keys[k].kind == kind && IsGood(c, kind, c.feed(from + k))
  }

  ghost function AllOf(keys: seq<Key>, kind: Kind): set<nat> {
    set k: nat | k < |keys| && keys[k].kind == kind
  }

  /** The counters tell how many epoch and draw requests were answered well, and how many were not. */
  ghost predicate CountsAnswers(n: Counters, c: Config, keys: seq<Key>, from: nat) {
    && n.epochsFetched == |GoodAnswers(c, keys, Epoch, from)| && n.drawsFetched == |GoodAnswers(c, keys, Draw, from)|
    && n.epochsFetched + n.epochsFailed == |AllOf(keys, Epoch)| && n.drawsFetched + n.drawsFailed == |AllOf(keys, Draw)|
  }

  lemma GoodOneMore(c: Config, keys: seq<Key>, key: Key, kind: Kind, from: nat)
    ensures |GoodAnswers(c, keys + [key], kind, from)| ==
            |GoodAnswers(c, keys, kind, from)|
            + if key.kind == kind && IsGood(c, kind, c.feed(from + |keys|)) then 1 else 0
  {
    var n, more := |keys|, keys + [key];
    assert more[n] == key && forall k :: 0 <= k < n ==> more[k] == keys[k];
    SetOneMore(GoodAnswers(c, keys, kind, from), GoodAnswers(c, more, kind, from), n,
               key.kind == kind && IsGood(c, kind, c.feed(from + n)));
  }

  lemma AllOneMore(keys: seq<Key>, key: Key, kind: Kind)
    ensures |AllOf(keys + [key], kind)| == |AllOf(keys, kind)| + if key.kind == kind then 1 else 0
  {
    var n, more := |keys|, keys + [key];
    assert more[n] == key && forall k :: 0 <= k < n ==> more[k] == keys[k];
    SetOneMore(AllOf(keys, kind), AllOf(more, kind), n, key.kind == kind);
  }

  lemma AnswerOneMore(c: Config, keys: seq<Key>, key: Key, from: nat)
    ensures forall kind :: kind == Epoch || kind == Draw ==>
              && |GoodAnswers(c, keys + [key], kind, from)| ==
                 |GoodAnswers(c, keys, kind, from)|
                 + (if key.kind == kind && IsGood(c, kind, c.feed(from + |keys|)) then 1 else 0)
              && |AllOf(keys + [key], kind)| == |AllOf(keys, kind)| + (if key.kind == kind then 1 else 0)
  {
    GoodOneMore(c, keys, key, Epoch, from);
    GoodOneMore(c, keys, key, Draw, from);
    AllOneMore(keys, key, Epoch);
    AllOneMore(keys, key, Draw);
  }

  lemma CountsEpoch(n: Counters, c: Config, keys: seq<Key>, epoch: int, from: nat)
    requires CountsAnswers(n, c, keys, from)
    ensures CountsAnswers(CountEpoch(n, Judge(c, Epoch, c.feed(from + |keys|))), c,
                          keys + [Key(Epoch, Some(epoch))], from)
  {
    JudgeExactly(c, Epoch, c.feed(from + |keys|));
    AnswerOneMore(c, keys, Key(Epoch, Some(epoch)), from);
  }

  lemma CountsDraw(n: Counters, c: Config, keys: seq<Key>, epoch: int, from: nat)
    requires CountsAnswers(n, c, keys, from)
    ensures CountsAnswers(CountDraw(n, Judge(c, Draw, c.feed(from + |keys|))), c, keys + [Key(Draw, Some(epoch))], from)
  {
    JudgeExactly(c, Draw, c.feed(from + |keys|));
    AnswerOneMore(c, keys, Key(Draw, Some(epoch)), from);
  }

  /** Spent budgets, as the plan has it. */
  ghost predicate SpendsBudgets(n: Counters, c: Config, seen: Samples, epochs: seq<int>, i: nat)
    requires i <= |epochs|
  {
    var needy, draws := |NeedyEpochs(c, seen, epochs, i)|, |NeedyDraws(c, seen, epochs, i)|;
    && n.Epochs() == (if needy < c.epochBudget then needy else c.epochBudget)
    && n.Draws() == (if draws < c.drawBudget then draws else c.drawBudget)
  }

  /** The state and the counters after these requests. */
  ghost predicate IsAfter(p: Progress, c: Config, st: State, keys: seq<Key>) {
    && p.st == FetchAll(c, st, keys) && p.st.fetches == st.fetches + |keys|
    && CountsAnswers(p.counters, c, keys, st.fetches)
  }

  ghost predicate FollowsPlan(p: Progress, c: Config, st: State, seen: Samples, epochs: seq<int>, i: nat)
    requires i <= |epochs|
  {
    IsAfter(p, c, st, PlanOf(c, seen, epochs, i)) && SpendsBudgets(p.counters, c, seen, epochs, i)
  }

  lemma RequestFollows(c: Config, st: State, keys: seq<Key>, key: Key)
    ensures Fetch(c, FetchAll(c, st, keys), key) == FetchAll(c, st, keys + [key])
  {
    assert (keys + [key])[..|keys|] == keys;
  }

  lemma EpochFollows(p: Progress, c: Config, st: State, keys: seq<Key>, epoch: int)
    requires IsAfter(p, c, st, keys)
    ensures IsAfter(Progress(Fetch(c, p.st, Key(Epoch, Some(epoch))),
                             CountEpoch(p.counters, Judge(c, Epoch, c.feed(p.st.fetches)))),
                    c, st, keys + [Key(Epoch, Some(epoch))])
  {
    RequestFollows(c, st, keys, Key(Epoch, Some(epoch)));
    CountsEpoch(p.counters, c, keys, epoch, st.fetches);
  }

  lemma DrawFollows(p: Progress, c: Config, st: State, keys: seq<Key>, epoch: int)
    requires IsAfter(p, c, st, keys)
    ensures IsAfter(Progress(Fetch(c, p.st, Key(Draw, Some(epoch))),
                             CountDraw(p.counters, Judge(c, Draw, c.feed(p.st.fetches)))),
                    c, st, keys + [Key(Draw, Some(epoch))])
  {
    RequestFollows(c, st, keys, Key(Draw, Some(epoch)));
    CountsDraw(p.counters, c, keys, epoch, st.fetches);
  }

  lemma VisitSpends(c: Config, seen: Samples, p: Progress, epochs: seq<int>, i: nat)
    requires i < |epochs| && SpendsBudgets(p.counters, c, seen, epochs, i)
    ensures SpendsBudgets(Visit(c, seen, p, epochs[i]).counters, c, seen, epochs, i + 1)
    ensures GetsEpoch(c, seen, epochs, i) <==> NeedEpoch(c, seen, epochs[i]) && p.counters.Epochs() < c.epochBudget
    ensures GetsDraw(c, seen, epochs, i) <==> NeedDraw(c, seen, epochs[i]) && p.counters.Draws() < c.drawBudget
  {
    NeedsEpochExactly(c, seen, epochs[i]);
    NeedsDrawExactly(c, seen, epochs[i]);
    NeedyEpochOneMore(c, seen, epochs, i);
    NeedyDrawOneMore(c, seen, epochs, i);
  }

  lemma VisitFollowsPlan(c: Config, st: State, seen: Samples, p: Progress, epochs: seq<int>, i: nat)
    requires i < |epochs| && FollowsPlan(p, c, st, seen, epochs, i)
    ensures FollowsPlan(Visit(c, seen, p, epochs[i]), c, st, seen, epochs, i + 1)
  {
    var keys := PlanOf(c, seen, epochs, i);
    var middle := keys + if GetsEpoch(c, seen, epochs, i) then [Key(Epoch, Some(epochs[i]))] else [];
    VisitSpends(c, seen, p, epochs, i);
    var q := p;
    if GetsEpoch(c, seen, epochs, i) {
      EpochFollows(p, c, st, keys, epochs[i]);
      q := Progress(Fetch(c, p.st, Key(Epoch, Some(epochs[i]))),
                    CountEpoch(p.counters, Judge(c, Epoch, c.feed(p.st.fetches))));
    } else {
      assert middle == keys;
    }
    if GetsDraw(c, seen, epochs, i) {
      DrawFollows(q, c, st, middle, epochs[i]);
    } else {
      assert middle + [] == middle;
    }
  }

  lemma {:induction false} VisitsFollowPlan(c: Config, st: State, seen: Samples, epochs: seq<int>, i: nat)
    requires i <= |epochs|
    ensures FollowsPlan(Visits(c, seen, Progress(st, Counters(0, 0, 0, 0)), epochs[..i]), c, st, seen, epochs, i)
  {
    if i > 0 {
      VisitsFollowPlan(c, st, seen, epochs, i - 1);
      assert epochs[..i][..i - 1] == epochs[..i - 1];
      var before := Visits(c, seen, Progress(st, Counters(0, 0, 0, 0)), epochs[..i - 1]);
      VisitFollowsPlan(c, st, seen, before, epochs, i - 1);
    } else {
      assert NeedyEpochs(c, seen, epochs, 0) == {} && NeedyDraws(c, seen, epochs, 0) == {};
      assert GoodAnswers(c, [], Epoch, st.fetches) == {} && GoodAnswers(c, [], Draw, st.fetches) == {};
      assert AllOf([], Epoch) == {} && AllOf([], Draw) == {};
    }
  }

  /** A run is exactly its planned requests, one after the other: those before the epochs, and then, decided from the
      samples as they are at that moment, those of the first two hundred entitled epochs within the budgets. */
  lemma RunFollowsPlan(c: Config, samples: Samples)
    ensures var stage := StageKeys(c, State(samples, 0));
            var st := FetchAll(c, State(samples, 0), stage);
            var epochs := if |c.entitledEpochs| <= 200 then c.entitledEpochs else c.entitledEpochs[..200];
            var p := Project(c, samples);
            && AreStageRequests(c, samples, stage)
            && p.st == FetchAll(c, st, PlanOf(c, st.samples, epochs, |epochs|))
            && CountsAnswers(p.counters, c, PlanOf(c, st.samples, epochs, |epochs|), st.fetches)
  {
    var stage := StageKeys(c, State(samples, 0));
    var st := FetchAll(c, State(samples, 0), stage);
    var epochs := Take(c.entitledEpochs, MAX_ENTITLED);
    StageRequestsExactly(c, samples);
    VisitsFollowPlan(c, st, st.samples, epochs, |epochs|);
    assert epochs[..|epochs|] == epochs;
  }
}
