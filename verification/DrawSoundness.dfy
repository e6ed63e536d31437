/** What a green verdict means: a draw is verified exactly when the chain data and the record determine
    the same parameters, candidates, beacon blocks and winners. */
module DrawSoundness {
  import opened Wrappers
  import opened Bytes
  import opened Hex
  import opened Sorting
  import opened WinnerCount
  import opened DrawFraming
  import opened DrawRecord
  import opened DrawBeacon
  import opened DrawVerify

  // ---- what is confirmed ----

  /** The record publishes exactly these parameters, and they obey every rule. */
  ghost predicate ParametersPublished(raw: Option<ParameterRecord>, p: Parameters) {
    && raw.Some? && |raw.value.fields| == FIELD_COUNT
    && (forall i :: 0 <= i < FIELD_COUNT ==> ToBounded(raw.value.fields[i]) == Some(p[i]))
    && raw.value.exclude == Bool(true)
    && Sound(p)
  }

  /** The record publishes exactly these candidates: lower case, none zero, strictly increasing, within the caps. */
  ghost predicate CandidatesPublished(raw: Value, max: nat, ids: seq<Digest>) {
    && raw.Arr? && |raw.items| == |ids| <= max && |ids| <= MAX_CANDIDATES
    && (forall i :: 0 <= i < |ids| ==> raw.items[i] == Str(ToHex(ids[i])) && ids[i] != ZERO)
    && InOrder(ids)
  }

  /** The policy index has reached the anchor, and the policy in force there, if indexed, is the one named. */
  ghost predicate PolicyConfirms(policy: Option<Policy>, behind: bool, p: Parameters) {
    && !behind
    && (policy.Some? && (policy.value.rateBps.Some? || policy.value.maxSelected.Some?) ==>
          && Agrees(policy.value.version, PolicyVersion(p))
          && Agrees(policy.value.rateBps, RateBps(p))
          && Agrees(policy.value.maxSelected, MaxSelected(p)))
  }

  /** The anchor transaction commits this slot, epoch, candidate set and parameters at the named height. */
  ghost predicate AnchorConfirms(hash: Hash, input: Input, p: Parameters, ids: seq<Digest>) {
    && input.anchor.Some?
    && DecodeAnchorMemo(input.anchor.value.memo) ==
       Some(Memo(input.ctx.slotId, input.ctx.epoch,
                 ToHex(SetDigest(hash, input.ctx, ids)), ToHex(ParamsDigest(hash, p))))
    && ToBounded(input.record.anchor.confirmedHeight) == Some(input.anchor.value.height)
  }

  /** Every height of the window has its block and proposer, and the entries are those of other slots. */
  ghost predicate IsWindow(view: map<nat, Block>, start: nat, end: nat, target: nat, entries: seq<Entry>) {
    && start <= end
    && (forall h :: start <= h <= end ==> Complete(view, h))
    && Increasing(entries, EarlierEntry)
    && (forall e :: e in entries <==>
          && start <= e.height <= end
          && Complete(view, e.height) && e == EntryOf(view[e.height]) && e.slot != target)
  }

  /** The winners, in ranking order, are candidates that rank before every other candidate. */
  ghost predicate LeastByTicket(hash: Hash, ctx: Context, setHash: Digest, beaconHash: Digest,
                                ids: seq<Digest>, winners: seq<Digest>)
  {
    var ranks, best := Rank(hash, ctx, setHash, beaconHash, ids), Rank(hash, ctx, setHash, beaconHash, winners);
    && Increasing(best, RankBefore)
    && (forall w :: w in winners ==> w in ids)
    && (forall w, r :: w in best && r in ranks && r !in best ==> RankBefore(w, r))
  }

  ghost predicate OutcomeIs(r: Record, o: Outcome, k: nat) {
    r.outcome == Str(OutcomeText(o)) && ToBounded(r.k) == Some(k)
  }

  /** The record counts the window's blocks as they are, and the outcome and winners follow from them. */
  ghost predicate DrawFollows(hash: Hash, ctx: Context, r: Record, b: BeaconRecord, p: Parameters, setHash: Digest,
                              ids: seq<Digest>, start: nat, end: nat, entries: seq<Entry>, winners: seq<Digest>)
  {
    && |entries| <= WindowBlocks(p)
    && ToBounded(b.usableBlocks) == Some(|entries|)
    && ToBounded(b.excludedTargetBlocks) == Some(WindowBlocks(p) - |entries|)
    && ToBounded(b.unattributableBlocks) == Some(0)
    && ToBounded(b.distinctProposers) == Some(|Slots(entries)|)
    && var admissible := |entries| >= MinBlocks(p) && |Slots(entries)| >= MinProposers(p);
    && var k := WinnersOf(|ids|, RateBps(p), MaxSelected(p), MaxPerSelection(p));
    && b.admissible == Bool(admissible)
    && if admissible then
         && var beaconHash := hash(Beacon(ctx, setHash, start, end, entries));
         && HexEq(beaconHash, b.hash)
         && OutcomeIs(r, Success, k)
         && |winners| == k
         && LeastByTicket(hash, ctx, setHash, beaconHash, ids, winners)
       else
         && b.hash == Null
         && OutcomeIs(r, NoValidBeacon, k)
         && winners == []
  }

  /** All of the window is known, and the draw follows from it. */
  ghost predicate WindowConfirms(hash: Hash, input: Input, p: Parameters, ids: seq<Digest>, b: BeaconRecord,
                                 start: nat, end: nat, entries: seq<Entry>, winners: seq<Digest>)
  {
    && IsWindow(ByHeight(input.blocks, start, end), start, end, input.ctx.slotId, entries)
    && DrawFollows(hash, input.ctx, input.record, b, p, SetDigest(hash, input.ctx, ids), ids, start, end, entries,
                   winners)
  }

  /** The window follows the anchor by the committed offset with the committed length, and is confirmed. */
  ghost predicate BeaconConfirms(hash: Hash, input: Input, p: Parameters, ids: seq<Digest>,
                                 entries: seq<Entry>, winners: seq<Digest>)
  {
    && input.record.beacon.Some? && input.anchor.Some? && WindowBlocks(p) > 0
    && var b := input.record.beacon.value;
    && var start := input.anchor.value.height + StartOffset(p);
    && var end := start + WindowBlocks(p) - 1;
    && ToBounded(b.startHeight) == Some(start) && ToBounded(b.endHeight) == Some(end)
    && WindowConfirms(hash, input, p, ids, b, start, end, entries, winners)
  }

  /** With fewer than two candidates there is no beacon and the candidates are the winners. */
  ghost predicate NoDrawNeeded(input: Input, ids: seq<Digest>, entries: seq<Entry>, winners: seq<Digest>) {
    && input.record.beacon.None?
    && entries == [] && winners == ids
    && OutcomeIs(input.record, if |ids| == 0 then NoCandidates else Success, |ids|)
  }

  ghost predicate FoundationConfirms(hash: Hash, input: Input, p: Parameters, ids: seq<Digest>) {
    && ShapeOk(input.ctx, input.record)
    && ParametersPublished(input.record.parameters, p)
    && HexEq(ParamsDigest(hash, p), input.record.anchor.committedParamsHash)
    && PolicyConfirms(input.policy, input.policyBehind, p)
    && CandidatesPublished(input.record.candidates, MaxCandidates(p), ids)
    && HexEq(SetDigest(hash, input.ctx, ids), input.record.candidateSetHash)
    && HexEq(SetDigest(hash, input.ctx, ids), input.record.anchor.committedSetHash)
    && AnchorConfirms(hash, input, p, ids)
  }

  ghost predicate DrawConfirms(hash: Hash, input: Input, p: Parameters, ids: seq<Digest>,
                               entries: seq<Entry>, winners: seq<Digest>)
  {
    if |ids| < 2 then NoDrawNeeded(input, ids, entries, winners)
    else BeaconConfirms(hash, input, p, ids, entries, winners)
  }

  /** Chain data and record agree on these parameters, candidates, beacon blocks and winners. */
  ghost predicate Confirms(hash: Hash, input: Input, p: Parameters, ids: seq<Digest>,
                           entries: seq<Entry>, winners: seq<Digest>)
  {
    && input.ctx.chainId != ""
    && FoundationConfirms(hash, input, p, ids)
    && DrawConfirms(hash, input, p, ids, entries, winners)
    && PublishedWinners(input.record.winners) == HexList(winners)
    && HexEq(SelectedDigest(hash, input.ctx, winners), input.record.selectedHash)
  }

  // ---- all checks hold ----

  lemma AllHoldConcat(a: seq<Check>, b: seq<Check>)
    ensures AllHold(a + b) <==> AllHold(a) && AllHold(b)
  {
    if AllHold(a + b) {
      assert forall i :: 0 <= i < |a| ==> (a + b)[i] == a[i];
      assert forall i :: 0 <= i < |b| ==> (a + b)[|a| + i] == b[i];
    }
  }

  lemma AllHoldMeansNotBroken(checks: seq<Check>)
    requires AllHold(checks)
    ensures !Broken(checks) && !AnyFails(checks)
  {
  }

  lemma AllHoldConcat6(a: seq<Check>, b: seq<Check>, c: seq<Check>, d: seq<Check>, e: seq<Check>, f: seq<Check>)
    ensures AllHold(a + b + c + d + e + f) <==>
            AllHold(a) && AllHold(b) && AllHold(c) && AllHold(d) && AllHold(e) && AllHold(f)
  {
    AllHoldConcat(a, b);
    AllHoldConcat(a + b, c);
    AllHoldConcat(a + b + c, d);
    AllHoldConcat(a + b + c + d, e);
    AllHoldConcat(a + b + c + d + e, f);
  }

  lemma PolicyHoldsExactly(policy: Option<Policy>, behind: bool, p: Parameters)
    ensures AllHold(PolicyChecks(policy, behind, p)) <==> PolicyConfirms(policy, behind, p)
  {
    var checks := PolicyChecks(policy, behind, p);
    if checks != [] {
      assert AllHold(checks) <==> checks[0].ok == Holds;
    }
  }

  lemma ParametersHoldExactly(parsed: Parsed, hashOk: bool)
    ensures AllHold(ParameterChecks(parsed, hashOk)) <==> parsed.Accepted? && hashOk
  {
    var checks := ParameterChecks(parsed, hashOk);
    assert AllHold(checks) <==> checks[0].ok == Holds && checks[1].ok == Holds;
  }

  lemma CandidatesHoldExactly(accepted: bool, canonical: bool, hashOk: bool)
    ensures AllHold(CandidateChecks(accepted, canonical, hashOk)) <==> accepted && canonical && hashOk
  {
    var checks := CandidateChecks(accepted, canonical, hashOk);
    assert AllHold(checks) <==> checks[0].ok == Holds && checks[1].ok == Holds;
  }

  lemma OneHolds(c: Check)
    ensures AllHold([c]) <==> c.ok == Holds
  {
    assert AllHold([c]) ==> [c][0].ok == Holds;
  }

  lemma AnchorHoldsExactly(anchor: Option<Anchor>, ctx: Context, setHash: Digest, paramsHash: Digest,
                           confirmed: Option<nat>)
    ensures AnchorAnswer(anchor, ctx, Some(setHash), Some(paramsHash), confirmed) == Holds <==>
            && anchor.Some?
            && DecodeAnchorMemo(anchor.value.memo) ==
               Some(Memo(ctx.slotId, ctx.epoch, ToHex(setHash), ToHex(paramsHash)))
            && confirmed == Some(anchor.value.height)
  {
  }

  /** The parsed parameters and candidates are the published ones. */
  lemma ParsedExactly(input: Input, p: Parameters, ids: seq<Digest>)
    requires WellTyped(input)
    ensures ParsedOf(input) == Accepted(p) <==> ParametersPublished(input.record.parameters, p)
    ensures ParsedOf(input) == Accepted(p) ==>
              (IdsOfRecord(input) == Some(ids) <==> CandidatesPublished(input.record.candidates, MaxCandidates(p), ids))
  {
    if input.record.parameters.Some? {
      ParametersAcceptedExactly(input.record.parameters.value, p);
    }
    CandidatesExactly(input.record.candidates, MaxCandidates(p), ids);
  }

  lemma FoundationParts(hash: Hash, input: Input)
    requires WellTyped(input)
    ensures var r, parsed, confirmed := input.record, ParsedOf(input), ToBounded(input.record.anchor.confirmedHeight);
            AllHold(Foundation(hash, input)) <==>
            && ShapeOk(input.ctx, r)
            && parsed.Accepted? && ParamsHashOk(ParamsHashOf(hash, input), r)
            && PolicyConfirms(input.policy, input.policyBehind, parsed.params)
            && IdsOfRecord(input).Some? && SetHashOk(SetHashOf(hash, input), r)
            && AnchorAnswer(input.anchor, input.ctx, SetHashOf(hash, input), ParamsHashOf(hash, input), confirmed)
               == Holds
            && !WindowFailed(parsed.params, r)
  {
    var r, parsed, confirmed := input.record, ParsedOf(input), ToBounded(input.record.anchor.confirmedHeight);
    var answer := AnchorAnswer(input.anchor, input.ctx, SetHashOf(hash, input), ParamsHashOf(hash, input), confirmed);
    var shape, anchor := Check(RecordShape, Of(ShapeOk(input.ctx, r))), Check(AnchorCommitment, answer);
    var paramsOk, setOk := ParamsHashOk(ParamsHashOf(hash, input), r), SetHashOk(SetHashOf(hash, input), r);
    AllHoldConcat6([shape], ParameterChecks(parsed, paramsOk),
                   if parsed.Accepted? then PolicyChecks(input.policy, input.policyBehind, parsed.params) else [],
                   CandidateChecks(parsed.Accepted?, IdsOfRecord(input).Some?, setOk), [anchor],
                   if parsed.Accepted? then WindowChecks(parsed.params, r.beacon, confirmed) else []);
    OneHolds(shape);
    OneHolds(anchor);
    ParametersHoldExactly(parsed, paramsOk);
    CandidatesHoldExactly(parsed.Accepted?, IdsOfRecord(input).Some?, setOk);
    if parsed.Accepted? {
      PolicyHoldsExactly(input.policy, input.policyBehind, parsed.params);
      if r.beacon.Some? {
        OneHolds(Check(WindowPlacement, Of(WindowOk(parsed.params, r.beacon.value, confirmed))));
      }
    }
  }

  /** The foundation holds exactly when it is confirmed and the beacon section, if any, is placed right. */
  lemma FoundationHoldsExactly(hash: Hash, input: Input, p: Parameters, ids: seq<Digest>)
    requires WellTyped(input) && ParsedOf(input) == Accepted(p) && IdsOfRecord(input) == Some(ids)
    ensures AllHold(Foundation(hash, input)) <==>
            FoundationConfirms(hash, input, p, ids) && !WindowFailed(p, input.record)
  {
    FoundationParts(hash, input);
    ParsedExactly(input, p, ids);
    AnchorHoldsExactly(input.anchor, input.ctx, SetDigest(hash, input.ctx, ids), ParamsDigest(hash, p),
                       ToBounded(input.record.anchor.confirmedHeight));
  }

  /** Verified means that every check of both parts was made and holds. */
  lemma VerifiedMeansAllHold(hash: Hash, input: Input)
    requires WellTyped(input)
    ensures Verify(hash, input) == Verified <==>
            && input.ctx.chainId != ""
            && AllHold(Foundation(hash, input))
            && ParsedOf(input).Accepted? && IdsOfRecord(input).Some?
            && AllHold(Rederivation(hash, input, ParsedOf(input).params, IdsOfRecord(input).value))
  {
    var checks := Checks(hash, input);
    assert Verify(hash, input) == Verified <==> AllHold(checks) && checks != [] by {
      if AllHold(checks) {
        AllHoldMeansNotBroken(checks);
      }
    }
    if input.ctx.chainId == "" {
      OneHolds(Check(ContextAvailable, Unknown));
    } else {
      if AllHold(Foundation(hash, input)) {
        AllHoldMeansNotBroken(Foundation(hash, input));
        FoundationParts(hash, input);
      }
      if IdsOfRecord(input).Some? {
        AllHoldConcat(Foundation(hash, input),
                      Rederivation(hash, input, ParsedOf(input).params, IdsOfRecord(input).value));
      }
    }
  }

  // ---- the winners are the least ----

  lemma RankBeforeIsStrict()
    ensures StrictOrder(RankBefore)
  {
    forall a: Ranked
      ensures !RankBefore(a, a)
    {
      LessIsIrreflexive(a.ticket);
      LessIsIrreflexive(a.id);
    }
    forall a: Ranked, b: Ranked, c: Ranked | RankBefore(a, b) && RankBefore(b, c)
      ensures RankBefore(a, c)
    {
      RankBeforeIsTransitive(a, b, c);
    }
  }

  lemma RankBeforeIsTransitive(a: Ranked, b: Ranked, c: Ranked)
    requires RankBefore(a, b) && RankBefore(b, c)
    ensures RankBefore(a, c)
  {
    LessIsIrreflexive(a.ticket);
    if a.ticket == b.ticket {
      if b.ticket == c.ticket {
        LessIsTransitive(a.id, b.id, c.id);
      }
    } else if b.ticket != c.ticket {
      LessIsTransitive(a.ticket, b.ticket, c.ticket);
    }
  }

  lemma RanksAreComparable(rs: set<Ranked>)
    ensures Comparable(rs, RankBefore)
  {
    forall a, b | a in rs && b in rs && a != b
      ensures RankBefore(a, b) || RankBefore(b, a)
    {
      LessIsTotal(a.ticket, b.ticket);
      LessIsTotal(a.id, b.id);
    }
  }

  lemma InOrderIsDistinct(ids: seq<Digest>)
    requires InOrder(ids)
    ensures Distinct(ids)
  {
    LessIsStrict();
    forall i, j | 0 <= i < j < |ids|
      ensures ids[i] != ids[j]
    {
      LessIsIrreflexive(ids[i]);
    }
  }

  lemma RankSorts(hash: Hash, ctx: Context, setHash: Digest, beaconHash: Digest, ids: seq<Digest>)
    requires InOrder(ids)
    ensures var ranks := Rank(hash, ctx, setHash, beaconHash, ids);
            && Increasing(Sort(ranks, RankBefore), RankBefore)
            && |Sort(ranks, RankBefore)| == |ids|
            && forall r :: r in Sort(ranks, RankBefore) <==> r in ranks
  {
    var ranks := Rank(hash, ctx, setHash, beaconHash, ids);
    InOrderIsDistinct(ids);
    assert Distinct(ranks);
    RankBeforeIsStrict();
    RanksAreComparable(Elements(ranks));
    SortIncreases(ranks, RankBefore);
    SortPermutes(ranks, RankBefore);
  }

  lemma RankMembers(hash: Hash, ctx: Context, setHash: Digest, beaconHash: Digest, ids: seq<Digest>, r: Ranked)
    ensures r in Rank(hash, ctx, setHash, beaconHash, ids) <==>
            r.id in ids && r.ticket == TicketOf(hash, ctx, setHash, beaconHash, r.id)
  {
    if r.id in ids && r.ticket == TicketOf(hash, ctx, setHash, beaconHash, r.id) {
      var i :| 0 <= i < |ids| && ids[i] == r.id;
      assert Rank(hash, ctx, setHash, beaconHash, ids)[i] == r;
    }
  }

  lemma RankOfIds(hash: Hash, ctx: Context, setHash: Digest, beaconHash: Digest, rs: seq<Ranked>)
    requires forall r :: r in rs ==> r.ticket == TicketOf(hash, ctx, setHash, beaconHash, r.id)
    ensures Rank(hash, ctx, setHash, beaconHash, IdsOf(rs)) == rs
  {
    forall i | 0 <= i < |rs|
      ensures Rank(hash, ctx, setHash, beaconHash, IdsOf(rs))[i] == rs[i]
    {
      assert rs[i] in rs;
    }
  }

  /** The drawn winners are the `k` least candidates by ticket, and nothing else is. */
  lemma DrawExactly(hash: Hash, ctx: Context, setHash: Digest, beaconHash: Digest, ids: seq<Digest>, k: nat,
                    winners: seq<Digest>)
    requires InOrder(ids) && k <= |ids|
    ensures winners == Draw(hash, ctx, setHash, beaconHash, ids, k) <==>
            |winners| == k && LeastByTicket(hash, ctx, setHash, beaconHash, ids, winners)
  {
    var ranks := Rank(hash, ctx, setHash, beaconHash, ids);
    var sorted := Sort(ranks, RankBefore);
    RankSorts(hash, ctx, setHash, beaconHash, ids);
    RankBeforeIsStrict();
    forall r
      ensures r in ranks <==> r.id in ids && r.ticket == TicketOf(hash, ctx, setHash, beaconHash, r.id)
    {
      RankMembers(hash, ctx, setHash, beaconHash, ids, r);
    }
    if winners == Draw(hash, ctx, setHash, beaconHash, ids, k) {
      DrawIsLeast(hash, ctx, setHash, beaconHash, ids, k);
    }
    if |winners| == k && LeastByTicket(hash, ctx, setHash, beaconHash, ids, winners) {
      var best := Rank(hash, ctx, setHash, beaconHash, winners);
      forall r | r in best
        ensures r in sorted
      {
        RankMembers(hash, ctx, setHash, beaconHash, winners, r);
      }
      LeastAreThePrefix(sorted, best, RankBefore);
      assert IdsOf(best) == winners;
      assert Take(sorted, k) == best;
    }
  }

  lemma DrawIsLeast(hash: Hash, ctx: Context, setHash: Digest, beaconHash: Digest, ids: seq<Digest>, k: nat)
    requires InOrder(ids) && k <= |ids|
    ensures var winners := Draw(hash, ctx, setHash, beaconHash, ids, k);
            |winners| == k && LeastByTicket(hash, ctx, setHash, beaconHash, ids, winners)
  {
    var ranks := Rank(hash, ctx, setHash, beaconHash, ids);
    var sorted := Sort(ranks, RankBefore);
    RankSorts(hash, ctx, setHash, beaconHash, ids);
    RankBeforeIsStrict();
    forall r | r in ranks
      ensures r.id in ids && r.ticket == TicketOf(hash, ctx, setHash, beaconHash, r.id)
    {
      RankMembers(hash, ctx, setHash, beaconHash, ids, r);
    }
    PrefixIsLeast(sorted, k, RankBefore);
    var best := sorted[..k];
    assert Take(sorted, k) == best;
    RankOfIds(hash, ctx, setHash, beaconHash, best);
    forall w | w in IdsOf(best)
      ensures w in ids
    {
      var i :| 0 <= i < |best| && IdsOf(best)[i] == w;
      assert best[i] in best;
    }
  }

  // ---- the re-derived outcome ----

  lemma EarlierEntryIsStrict()
    ensures StrictOrder(EarlierEntry)
  {
  }

  /** The entries of a window with nothing missing are exactly the assessed ones. */
  lemma WindowExactly(view: map<nat, Block>, start: nat, end: nat, target: nat, entries: seq<Entry>)
    requires start <= end && RowsKnowTheirHeight(view)
    ensures var a := Assess(view, start, end, target);
            IsWindow(view, start, end, target, entries) <==> a.missing == 0 && entries == a.entries
  {
    var a := Assess(view, start, end, target);
    NothingMissingExactly(view, start, end, target);
    EntriesExactly(view, start, end, target);
    if IsWindow(view, start, end, target, entries) {
      EarlierEntryIsStrict();
      IncreasingDetermines(entries, a.entries, EarlierEntry);
    }
  }

  ghost predicate WinnersHold(hash: Hash, ctx: Context, r: Record, winners: seq<Digest>) {
    && PublishedWinners(r.winners) == HexList(winners)
    && HexEq(SelectedDigest(hash, ctx, winners), r.selectedHash)
  }

  lemma WinnersHoldExactly(hash: Hash, ctx: Context, r: Record, k: nat, winners: Option<seq<Digest>>)
    ensures AllHold(WinnerChecks(hash, ctx, r, k, winners)) <==>
            winners.Some? && ToBounded(r.k) == Some(k) && WinnersHold(hash, ctx, r, winners.value)
  {
    var checks := WinnerChecks(hash, ctx, r, k, winners);
    if winners.None? {
      OneHolds(checks[0]);
    } else {
      assert AllHold(checks) <==> checks[0].ok == Holds && checks[1].ok == Holds;
    }
  }

  /** The re-derivation holds exactly when its beacon checks do and the record publishes the derived
      outcome, number and winners. */
  lemma RederivationParts(hash: Hash, input: Input, p: Parameters, ids: seq<Digest>)
    requires !WindowFailed(p, input.record)
    ensures var d := Derive(hash, input, p, ids);
            AllHold(Rederivation(hash, input, p, ids)) <==>
            && AllHold(d.checks) && d.outcome.Some?
            && var k := ExpectedK(p, d.outcome.value, |ids|);
            && var winners := ExpectedWinners(hash, input.ctx, ids, d.outcome.value, d.beaconHash, k);
            && OutcomeIs(input.record, d.outcome.value, k)
            && winners.Some? && WinnersHold(hash, input.ctx, input.record, winners.value)
  {
    var d := Derive(hash, input, p, ids);
    var outcome := OutcomeChecks(input.record.outcome, d, false);
    OneHolds(outcome[0]);
    if d.outcome.None? {
      AllHoldConcat(d.checks + outcome, []);
      AllHoldConcat(d.checks, outcome);
    } else {
      var k := ExpectedK(p, d.outcome.value, |ids|);
      var winners := ExpectedWinners(hash, input.ctx, ids, d.outcome.value, d.beaconHash, k);
      AllHoldConcat(d.checks + outcome, WinnerChecks(hash, input.ctx, input.record, k, winners));
      AllHoldConcat(d.checks, outcome);
      WinnersHoldExactly(hash, input.ctx, input.record, k, winners);
    }
  }

  /** The derivation is the one of the assessed window. */
  lemma JudgeExactlyHolds(hash: Hash, ctx: Context, p: Parameters, setHash: Digest, b: BeaconRecord,
                          start: nat, end: nat, a: Assessment)
    requires a.missing >= 0
    ensures var d := JudgeBeacon(hash, ctx, p, setHash, b, start, end, a);
            AllHold(d.checks) && d.outcome.Some? <==>
            && a.missing == 0 && CountsOk(p, b, a)
            && if Admissible(p, a) then HexEq(BeaconDigest(hash, ctx, setHash, start, end, a), b.hash)
               else b.hash == Null
  {
    var d := JudgeBeacon(hash, ctx, p, setHash, b, start, end, a);
    OneHolds(d.checks[0]);
  }

  ghost function DerivedEntries(input: Input, ids: seq<Digest>): seq<Entry> {
    if |ids| < 2 || input.record.beacon.None? then []
    else
      var b := input.record.beacon.value;
      var start, end := ToBounded(b.startHeight), ToBounded(b.endHeight);
      if start.Some? && end.Some? && start.value <= end.value then
        Assess(ByHeight(input.blocks, start.value, end.value), start.value, end.value, input.ctx.slotId).entries
      else []
  }

  ghost predicate Derives(hash: Hash, ctx: Context, r: Record, p: Parameters, ids: seq<Digest>, d: Derivation,
                          winners: seq<Digest>)
  {
    && AllHold(d.checks) && d.outcome.Some?
    && var k := ExpectedK(p, d.outcome.value, |ids|);
    && OutcomeIs(r, d.outcome.value, k)
    && ExpectedWinners(hash, ctx, ids, d.outcome.value, d.beaconHash, k) == Some(winners)
  }

  lemma DrawFollowsAdmissible(hash: Hash, ctx: Context, r: Record, b: BeaconRecord, p: Parameters,
                              ids: seq<Digest>, start: nat, end: nat, a: Assessment, winners: seq<Digest>)
    requires |ids| >= 2 && InOrder(ids) && Sound(p)
    requires a.missing == 0 && a.usable == |a.entries| && a.distinct == |Slots(a.entries)|
    requires a.usable + a.excludedTarget == WindowBlocks(p)
    requires Admissible(p, a)
    ensures var setHash := SetDigest(hash, ctx, ids);
            DrawFollows(hash, ctx, r, b, p, setHash, ids, start, end, a.entries, winners) <==>
            Derives(hash, ctx, r, p, ids, JudgeBeacon(hash, ctx, p, setHash, b, start, end, a), winners)
  {
    var setHash := SetDigest(hash, ctx, ids);
    var k := WinnersOf(|ids|, RateBps(p), MaxSelected(p), MaxPerSelection(p));
    JudgeExactlyHolds(hash, ctx, p, setHash, b, start, end, a);
    WinnersAreBounded(|ids|, RateBps(p), MaxSelected(p), MaxPerSelection(p));
    DrawExactly(hash, ctx, setHash, BeaconDigest(hash, ctx, setHash, start, end, a), ids, k, winners);
  }

  lemma DrawFollowsInadmissible(hash: Hash, ctx: Context, r: Record, b: BeaconRecord, p: Parameters,
                                ids: seq<Digest>, start: nat, end: nat, a: Assessment, winners: seq<Digest>)
    requires |ids| >= 2 && InOrder(ids) && Sound(p)
    requires a.missing == 0 && a.usable == |a.entries| && a.distinct == |Slots(a.entries)|
    requires a.usable + a.excludedTarget == WindowBlocks(p)
    requires !Admissible(p, a)
    ensures var setHash := SetDigest(hash, ctx, ids);
            DrawFollows(hash, ctx, r, b, p, setHash, ids, start, end, a.entries, winners) <==>
            Derives(hash, ctx, r, p, ids, JudgeBeacon(hash, ctx, p, setHash, b, start, end, a), winners)
  {
    var setHash := SetDigest(hash, ctx, ids);
    var k := WinnersOf(|ids|, RateBps(p), MaxSelected(p), MaxPerSelection(p));
    JudgeExactlyHolds(hash, ctx, p, setHash, b, start, end, a);
    WinnersAreBounded(|ids|, RateBps(p), MaxSelected(p), MaxPerSelection(p));
  }

  /** Over a window with nothing missing, the draw follows exactly when it is the derived one. */
  lemma DrawFollowsExactly(hash: Hash, ctx: Context, r: Record, b: BeaconRecord, p: Parameters,
                           ids: seq<Digest>, start: nat, end: nat, a: Assessment, winners: seq<Digest>)
    requires |ids| >= 2 && InOrder(ids) && Sound(p)
    requires a.missing == 0 && a.usable == |a.entries| && a.distinct == |Slots(a.entries)|
    requires a.usable + a.excludedTarget == WindowBlocks(p)
    ensures var setHash := SetDigest(hash, ctx, ids);
            DrawFollows(hash, ctx, r, b, p, setHash, ids, start, end, a.entries, winners) <==>
            Derives(hash, ctx, r, p, ids, JudgeBeacon(hash, ctx, p, setHash, b, start, end, a), winners)
  {
    if Admissible(p, a) {
      DrawFollowsAdmissible(hash, ctx, r, b, p, ids, start, end, a, winners);
    } else {
      DrawFollowsInadmissible(hash, ctx, r, b, p, ids, start, end, a, winners);
    }
  }

  /** Over the placed window, the draw is confirmed exactly when it is derived from the assessment. */
  lemma WindowConfirmsExactly(hash: Hash, input: Input, p: Parameters, ids: seq<Digest>, b: BeaconRecord,
                              start: nat, end: nat, entries: seq<Entry>, winners: seq<Digest>)
    requires |ids| >= 2 && InOrder(ids) && Sound(p)
    requires start <= end && end - start + 1 == WindowBlocks(p)
    ensures var a := Assess(ByHeight(input.blocks, start, end), start, end, input.ctx.slotId);
            WindowConfirms(hash, input, p, ids, b, start, end, entries, winners) <==>
            && entries == a.entries
            && Derives(hash, input.ctx, input.record, p, ids,
                       JudgeBeacon(hash, input.ctx, p, SetDigest(hash, input.ctx, ids), b, start, end, a), winners)
  {
    var view := ByHeight(input.blocks, start, end);
    var a := Assess(view, start, end, input.ctx.slotId);
    ByHeightExactly(input.blocks, start, end);
    NothingMissingExactly(view, start, end, input.ctx.slotId);
    WindowExactly(view, start, end, input.ctx.slotId, entries);
    JudgeExactlyHolds(hash, input.ctx, p, SetDigest(hash, input.ctx, ids), b, start, end, a);
    if a.missing == 0 {
      DrawFollowsExactly(hash, input.ctx, input.record, b, p, ids, start, end, a, winners);
    }
  }

  lemma PlacementExactly(p: Parameters, b: BeaconRecord, height: nat)
    requires Sound(p)
    ensures WindowOk(p, b, Some(height)) <==>
            ToBounded(b.startHeight) == Some(height + StartOffset(p))
            && ToBounded(b.endHeight) == Some(height + StartOffset(p) + WindowBlocks(p) - 1)
  {
  }

  /** A misplaced window is neither confirmed nor derived from. */
  lemma MisplacedNeverConfirms(hash: Hash, input: Input, p: Parameters, ids: seq<Digest>,
                               entries: seq<Entry>, winners: seq<Digest>)
    requires Sound(p) && input.anchor.Some?
    requires ToBounded(input.record.anchor.confirmedHeight) == Some(input.anchor.value.height)
    requires input.record.beacon.None? || WindowFailed(p, input.record)
    ensures !BeaconConfirms(hash, input, p, ids, entries, winners)
  {
    if input.record.beacon.Some? {
      PlacementExactly(p, input.record.beacon.value, input.anchor.value.height);
    }
  }

  lemma DeriveIsJudge(hash: Hash, input: Input, p: Parameters, ids: seq<Digest>, b: BeaconRecord, start: nat, end: nat)
    requires |ids| >= 2 && input.record.beacon == Some(b) && !WindowFailed(p, input.record)
    requires ToBounded(b.startHeight) == Some(start) && ToBounded(b.endHeight) == Some(end)
    ensures start <= end
    ensures var a := Assess(ByHeight(input.blocks, start, end), start, end, input.ctx.slotId);
            && DerivedEntries(input, ids) == a.entries
            && Derive(hash, input, p, ids)
               == JudgeBeacon(hash, input.ctx, p, SetDigest(hash, input.ctx, ids), b, start, end, a)
  {
  }

  lemma PlacedConfirms(hash: Hash, input: Input, p: Parameters, ids: seq<Digest>, b: BeaconRecord,
                       start: nat, end: nat, entries: seq<Entry>, winners: seq<Digest>)
    requires input.anchor.Some? && input.record.beacon == Some(b) && WindowBlocks(p) > 0
    requires start == input.anchor.value.height + StartOffset(p) && end == start + WindowBlocks(p) - 1
    requires ToBounded(b.startHeight) == Some(start) && ToBounded(b.endHeight) == Some(end)
    ensures BeaconConfirms(hash, input, p, ids, entries, winners) <==>
            WindowConfirms(hash, input, p, ids, b, start, end, entries, winners)
  {
  }

  /** Of two or more candidates, the beacon is confirmed exactly when the derivation holds. */
  lemma BeaconHoldsExactly(hash: Hash, input: Input, p: Parameters, ids: seq<Digest>,
                           entries: seq<Entry>, winners: seq<Digest>)
    requires |ids| >= 2 && InOrder(ids) && Sound(p) && input.anchor.Some?
    requires ToBounded(input.record.anchor.confirmedHeight) == Some(input.anchor.value.height)
    ensures BeaconConfirms(hash, input, p, ids, entries, winners) <==>
            && input.record.beacon.Some? && !WindowFailed(p, input.record)
            && entries == DerivedEntries(input, ids)
            && Derives(hash, input.ctx, input.record, p, ids, Derive(hash, input, p, ids), winners)
  {
    if input.record.beacon.None? || WindowFailed(p, input.record) {
      MisplacedNeverConfirms(hash, input, p, ids, entries, winners);
    } else {
      var b, height := input.record.beacon.value, input.anchor.value.height;
      PlacementExactly(p, b, height);
      var start := height + StartOffset(p);
      var end := start + WindowBlocks(p) - 1;
      PlacedConfirms(hash, input, p, ids, b, start, end, entries, winners);
      DeriveIsJudge(hash, input, p, ids, b, start, end);
      WindowConfirmsExactly(hash, input, p, ids, b, start, end, entries, winners);
    }
  }

  // ---- the theorem ----

  /** A draw is verified exactly when some parameters, candidates, beacon blocks and winners are confirmed by
      the chain data and published by the record. */
  lemma VerifiedExactly(hash: Hash, input: Input)
    requires WellTyped(input)
    ensures Verify(hash, input) == Verified <==>
            exists p: Parameters, ids, entries, winners :: Confirms(hash, input, p, ids, entries, winners)
  {
    if Verify(hash, input) == Verified {
      VerifiedIsConfirmed(hash, input);
    }
    if p: Parameters, ids, entries, winners :| Confirms(hash, input, p, ids, entries, winners) {
      ConfirmedIsVerified(hash, input, p, ids, entries, winners);
    }
  }

  lemma ShortListHoldsExactly(hash: Hash, input: Input, p: Parameters, ids: seq<Digest>)
    requires |ids| < 2 && !WindowFailed(p, input.record)
    ensures AllHold(Rederivation(hash, input, p, ids)) <==>
            NoDrawNeeded(input, ids, [], ids) && WinnersHold(hash, input.ctx, input.record, ids)
  {
    RederivationParts(hash, input, p, ids);
    OneHolds(Check(BeaconShape, Fails));
  }

  lemma VerifiedIsConfirmed(hash: Hash, input: Input)
    requires WellTyped(input) && Verify(hash, input) == Verified
    ensures exists p: Parameters, ids, entries, winners :: Confirms(hash, input, p, ids, entries, winners)
  {
    VerifiedMeansAllHold(hash, input);
    var p, ids := ParsedOf(input).params, IdsOfRecord(input).value;
    FoundationHoldsExactly(hash, input, p, ids);
    if |ids| < 2 {
      ShortListHoldsExactly(hash, input, p, ids);
      assert Confirms(hash, input, p, ids, [], ids);
    } else {
      var d := Derive(hash, input, p, ids);
      RederivationParts(hash, input, p, ids);
      var k := ExpectedK(p, d.outcome.value, |ids|);
      var winners := ExpectedWinners(hash, input.ctx, ids, d.outcome.value, d.beaconHash, k).value;
      DerivationNeedsBeacon(hash, input, p, ids);
      BeaconHoldsExactly(hash, input, p, ids, DerivedEntries(input, ids), winners);
      assert Confirms(hash, input, p, ids, DerivedEntries(input, ids), winners);
    }
  }

  lemma DerivationNeedsBeacon(hash: Hash, input: Input, p: Parameters, ids: seq<Digest>)
    requires |ids| >= 2 && AllHold(Derive(hash, input, p, ids).checks) && Derive(hash, input, p, ids).outcome.Some?
    ensures input.record.beacon.Some?
  {
  }

  lemma ConfirmedIsVerified(hash: Hash, input: Input, p: Parameters, ids: seq<Digest>,
                            entries: seq<Entry>, winners: seq<Digest>)
    requires WellTyped(input) && Confirms(hash, input, p, ids, entries, winners)
    ensures Verify(hash, input) == Verified
  {
    ParsedExactly(input, p, ids);
    if |ids| < 2 {
      ShortListHoldsExactly(hash, input, p, ids);
    } else {
      BeaconHoldsExactly(hash, input, p, ids, entries, winners);
      RederivationParts(hash, input, p, ids);
    }
    FoundationHoldsExactly(hash, input, p, ids);
    VerifiedMeansAllHold(hash, input);
  }
}
