/** What a red verdict means: a draw is a mismatch exactly when its record, the anchor, the policy or the window
    refutes something that it says. */
module DrawContradiction {
  import opened Wrappers
  import opened Bytes
  import opened Hex
  import opened Sorting
  import opened WinnerCount
  import opened DrawFraming
  import opened DrawRecord
  import opened DrawBeacon
  import opened DrawVerify
  import opened DrawSoundness
  import opened DrawDegradation
  import opened DrawSpec
  import opened DrawReading

  // ---- the draw as it is meant ----

  lemma PrecedesExactly(hash: Hash, ctx: Context, setHash: Digest, beaconHash: Digest, a: Digest, b: Digest)
    ensures var rankA, rankB := Ranked(TicketOf(hash, ctx, setHash, beaconHash, a), a),
                                Ranked(TicketOf(hash, ctx, setHash, beaconHash, b), b);
            RankBefore(rankA, rankB) <==> Precedes(hash, ctx, setHash, beaconHash, a, b)
  {
    EarlierExactly(hash(Ticket(ctx, setHash, beaconHash, a)), hash(Ticket(ctx, setHash, beaconHash, b)));
    EarlierExactly(a, b);
  }

  lemma RankOf(hash: Hash, ctx: Context, setHash: Digest, beaconHash: Digest, ids: seq<Digest>, id: Digest)
    ensures Ranked(TicketOf(hash, ctx, setHash, beaconHash, id), id) in Rank(hash, ctx, setHash, beaconHash, ids)
            <==> id in ids
  {
    RankMembers(hash, ctx, setHash, beaconHash, ids, Ranked(TicketOf(hash, ctx, setHash, beaconHash, id), id));
  }

  lemma DrawnIncreases(hash: Hash, ctx: Context, setHash: Digest, beaconHash: Digest, winners: seq<Digest>)
    ensures Increasing(Rank(hash, ctx, setHash, beaconHash, winners), RankBefore) <==>
            forall i, j :: 0 <= i < j < |winners| ==>
              Precedes(hash, ctx, setHash, beaconHash, winners[i], winners[j])
  {
    var best := Rank(hash, ctx, setHash, beaconHash, winners);
    forall i, j | 0 <= i < j < |winners|
      ensures RankBefore(best[i], best[j]) <==> Precedes(hash, ctx, setHash, beaconHash, winners[i], winners[j])
    {
      PrecedesExactly(hash, ctx, setHash, beaconHash, winners[i], winners[j]);
    }
  }

  /** The least candidates by ticket are the drawn ones. */
  lemma DrawnExactly(hash: Hash, ctx: Context, setHash: Digest, beaconHash: Digest, ids: seq<Digest>,
                     winners: seq<Digest>)
    ensures LeastByTicket(hash, ctx, setHash, beaconHash, ids, winners) <==>
            AreDrawn(hash, ctx, setHash, beaconHash, ids, winners)
  {
    var ranks, best := Rank(hash, ctx, setHash, beaconHash, ids), Rank(hash, ctx, setHash, beaconHash, winners);
    DrawnIncreases(hash, ctx, setHash, beaconHash, winners);
    if AreDrawn(hash, ctx, setHash, beaconHash, ids, winners) {
      forall w, r | w in best && r in ranks && r !in best
        ensures RankBefore(w, r)
      {
        RankMembers(hash, ctx, setHash, beaconHash, winners, w);
        RankMembers(hash, ctx, setHash, beaconHash, ids, r);
        RankOf(hash, ctx, setHash, beaconHash, winners, r.id);
        PrecedesExactly(hash, ctx, setHash, beaconHash, w.id, r.id);
      }
    }
    if LeastByTicket(hash, ctx, setHash, beaconHash, ids, winners) {
      forall w, id | w in winners && id in ids && id !in winners
        ensures Precedes(hash, ctx, setHash, beaconHash, w, id)
      {
        RankOf(hash, ctx, setHash, beaconHash, winners, w);
        RankOf(hash, ctx, setHash, beaconHash, winners, id);
        RankOf(hash, ctx, setHash, beaconHash, ids, id);
        PrecedesExactly(hash, ctx, setHash, beaconHash, w, id);
      }
    }
  }

  lemma {:induction false} StringsOfAll(items: seq<DrawRecord.Value>)
    requires forall i :: 0 <= i < |items| ==> items[i].Str?
    ensures |StringsOf(items)| == |items|
    ensures forall i :: 0 <= i < |items| ==> items[i] == Str(StringsOf(items)[i])
  {
    if items != [] {
      StringsOfAll(items[..|items| - 1]);
    }
  }

  lemma ListExactly(ctx: Context, r: Record, winners: seq<Digest>)
    requires IsShaped(ctx, r)
    ensures PublishedWinners(r.winners) == HexList(winners) <==> ListsWinners(r, winners)
  {
    if r.winners.Arr? {
      var items := r.winners.items;
      StringsOfAll(items);
      if |items| == |winners| {
        forall i | 0 <= i < |winners|
          ensures StringsOf(items)[i] == HexList(winners)[i] <==> SpellsLower(items[i].s, winners[i])
        {
          LowerTextExactly(items[i].s, winners[i]);
        }
      }
    }
  }

  lemma NamesExactly(hash: Hash, ctx: Context, r: Record, winners: seq<Digest>)
    requires IsShaped(ctx, r)
    ensures WinnersHold(hash, ctx, r, winners) <==> NamesWinners(hash, ctx, r, winners)
  {
    DigestExactly(hash(Selected(ctx, winners)), r.selectedHash);
    ListExactly(ctx, r, winners);
  }

  lemma ShortListExactly(hash: Hash, input: Input, ids: seq<Digest>)
    requires |ids| < 2 && IsShaped(input.ctx, input.record)
    ensures NoDrawNeeded(input, ids, [], ids) && WinnersHold(hash, input.ctx, input.record, ids) <==>
            ShortListFits(hash, input.ctx, input.record, ids)
  {
    NumberExactly(input.record.k, |ids|);
    NamesExactly(hash, input.ctx, input.record, ids);
  }

  lemma DrawFitsExactly(hash: Hash, ctx: Context, r: Record, b: BeaconRecord, p: Parameters, ids: seq<Digest>,
                        start: nat, end: nat, entries: seq<Entry>, winners: seq<Digest>)
    requires IsShaped(ctx, r) && r.beacon == Some(b)
    ensures DrawFits(hash, ctx, r, p, ids, start, end, entries, winners) <==>
            && DrawFollows(hash, ctx, r, b, p, SetDigest(hash, ctx, ids), ids, start, end, entries, winners)
            && WinnersHold(hash, ctx, r, winners)
  {
    var setHash := hash(CandidateSet(ctx, ids));
    var beaconHash := hash(Beacon(ctx, setHash, start, end, entries));
    var k := WinnersOf(|ids|, RateBps(p), MaxSelected(p), MaxPerSelection(p));
    NamesExactly(hash, ctx, r, winners);
    NumberExactly(b.usableBlocks, |entries|);
    NumberExactly(b.unattributableBlocks, 0);
    NumberExactly(b.distinctProposers, |Slots(entries)|);
    NumberExactly(r.k, k);
    DigestExactly(beaconHash, b.hash);
    DrawnExactly(hash, ctx, setHash, beaconHash, ids, winners);
    if |entries| <= WindowBlocks(p) {
      NumberExactly(b.excludedTargetBlocks, WindowBlocks(p) - |entries|);
    }
  }

  // ---- which checks fail ----

  lemma AnyFailsConcat(a: seq<Check>, b: seq<Check>)
    ensures AnyFails(a + b) <==> AnyFails(a) || AnyFails(b)
  {
    if i :| 0 <= i < |a| && a[i].ok == Fails {
      assert (a + b)[i] == a[i];
    }
    if i :| 0 <= i < |b| && b[i].ok == Fails {
      assert (a + b)[|a| + i] == b[i];
    }
  }

  lemma AnyFailsConcat6(a: seq<Check>, b: seq<Check>, c: seq<Check>, d: seq<Check>, e: seq<Check>, f: seq<Check>)
    ensures AnyFails(a + b + c + d + e + f) <==>
            AnyFails(a) || AnyFails(b) || AnyFails(c) || AnyFails(d) || AnyFails(e) || AnyFails(f)
  {
    AnyFailsConcat(a, b);
    AnyFailsConcat(a + b, c);
    AnyFailsConcat(a + b + c, d);
    AnyFailsConcat(a + b + c + d, e);
    AnyFailsConcat(a + b + c + d + e, f);
  }

  lemma OneFails(c: Check)
    ensures AnyFails([c]) <==> c.ok == Fails
  {
    assert [c][0] == c;
  }

  lemma TwoFail(c: Check, d: Check)
    ensures AnyFails([c, d]) <==> c.ok == Fails || d.ok == Fails
  {
    assert [c, d][0] == c && [c, d][1] == d;
  }

  lemma PolicyFailsExactly(policy: Option<Policy>, behind: bool, p: Parameters)
    ensures AnyFails(PolicyChecks(policy, behind, p)) <==> PolicyContradicts(policy, behind, p)
  {
    var checks := PolicyChecks(policy, behind, p);
    if checks != [] {
      OneFails(checks[0]);
    }
  }

  lemma ParametersFailExactly(parsed: Parsed, hashOk: bool)
    ensures AnyFails(ParameterChecks(parsed, hashOk)) <==> parsed.Refused? || (parsed.Accepted? && !hashOk)
  {
    var checks := ParameterChecks(parsed, hashOk);
    TwoFail(checks[0], checks[1]);
  }

  lemma CandidatesFailExactly(accepted: bool, canonical: bool, hashOk: bool)
    ensures AnyFails(CandidateChecks(accepted, canonical, hashOk)) <==> accepted && (!canonical || !hashOk)
  {
    var checks := CandidateChecks(accepted, canonical, hashOk);
    TwoFail(checks[0], checks[1]);
  }

  /** Which part of the foundation fails. */
  lemma FoundationFails(hash: Hash, input: Input)
    requires WellTyped(input)
    ensures var r, parsed := input.record, ParsedOf(input);
            AnyFails(Foundation(hash, input)) <==>
            || !IsShaped(input.ctx, r)
            || parsed.Refused?
            || AnchorContradicts(hash, input)
            || (parsed.Accepted? &&
                (|| !ParamsHashOk(ParamsHashOf(hash, input), r)
                 || PolicyContradicts(input.policy, input.policyBehind, parsed.params)
                 || IdsOfRecord(input).None? || !SetHashOk(SetHashOf(hash, input), r)
                 || WindowFailed(parsed.params, r)))
  {
    var r, parsed, confirmed := input.record, ParsedOf(input), ToBounded(input.record.anchor.confirmedHeight);
    var answer := AnchorAnswer(input.anchor, input.ctx, SetHashOf(hash, input), ParamsHashOf(hash, input), confirmed);
    var shape, anchor := Check(RecordShape, Of(ShapeOk(input.ctx, r))), Check(AnchorCommitment, answer);
    var paramsOk, setOk := ParamsHashOk(ParamsHashOf(hash, input), r), SetHashOk(SetHashOf(hash, input), r);
    AnyFailsConcat6([shape], ParameterChecks(parsed, paramsOk),
                    if parsed.Accepted? then PolicyChecks(input.policy, input.policyBehind, parsed.params) else [],
                    CandidateChecks(parsed.Accepted?, IdsOfRecord(input).Some?, setOk), [anchor],
                    if parsed.Accepted? then WindowChecks(parsed.params, r.beacon, confirmed) else []);
    ShapeExactly(input.ctx, r);
    AnchorFailsExactly(hash, input);
    OneFails(shape);
    OneFails(anchor);
    ParametersFailExactly(parsed, paramsOk);
    CandidatesFailExactly(parsed.Accepted?, IdsOfRecord(input).Some?, setOk);
    if parsed.Accepted? {
      PolicyFailsExactly(input.policy, input.policyBehind, parsed.params);
      if r.beacon.Some? {
        OneFails(Check(WindowPlacement, Of(WindowOk(parsed.params, r.beacon.value, confirmed))));
      }
    }
  }

  // ---- which re-derived checks fail ----

  /** Without an unknown answer, something fails or everything holds. */
  lemma FailsUnlessAllHold(checks: seq<Check>)
    requires (exists i :: 0 <= i < |checks| && checks[i].ok == Unknown) ==> AnyFails(checks)
    ensures AnyFails(checks) <==> !AllHold(checks)
  {
  }

  lemma ShortListFails(hash: Hash, input: Input, p: Parameters, ids: seq<Digest>)
    requires |ids| < 2 && !WindowFailed(p, input.record) && IsShaped(input.ctx, input.record)
    ensures AnyFails(Rederivation(hash, input, p, ids)) <==> !ShortListFits(hash, input.ctx, input.record, ids)
  {
    ShortListHoldsExactly(hash, input, p, ids);
    ShortListExactly(hash, input, ids);
    var checks := Rederivation(hash, input, p, ids);
    forall i | 0 <= i < |checks|
      ensures checks[i].ok != Unknown
    {
    }
    FailsUnlessAllHold(checks);
  }

  lemma MissingBeaconFails(hash: Hash, input: Input, p: Parameters, ids: seq<Digest>)
    requires |ids| >= 2 && input.record.beacon.None?
    ensures AnyFails(Rederivation(hash, input, p, ids))
  {
    assert Rederivation(hash, input, p, ids)[0] == Check(BeaconRecomputed, Fails);
  }

  /** Of a window with nothing missing, every answer is known unless the beacon already fails. */
  lemma WholeWindowAnswers(hash: Hash, input: Input, p: Parameters, ids: seq<Digest>, b: BeaconRecord,
                           start: nat, end: nat)
    requires |ids| >= 2 && input.record.beacon == Some(b) && !WindowFailed(p, input.record)
    requires ToBounded(b.startHeight) == Some(start) && ToBounded(b.endHeight) == Some(end) && start <= end
    requires Assess(ByHeight(input.blocks, start, end), start, end, input.ctx.slotId).missing == 0
    ensures var checks := Rederivation(hash, input, p, ids); AnyFails(checks) <==> !AllHold(checks)
  {
    var d, checks := Derive(hash, input, p, ids), Rederivation(hash, input, p, ids);
    assert checks[0] == d.checks[0];
    forall i | 0 <= i < |checks| && checks[i].ok == Unknown
      ensures AnyFails(checks)
    {
      assert checks[0].ok == Fails;
    }
    FailsUnlessAllHold(checks);
  }

  lemma WholeWindowFails(hash: Hash, input: Input, p: Parameters, ids: seq<Digest>, b: BeaconRecord,
                         start: nat, end: nat)
    requires |ids| >= 2 && InOrder(ids) && Sound(p) && IsShaped(input.ctx, input.record)
    requires input.record.beacon == Some(b) && IsPlaced(input.record, p, start, end) && start <= end
    requires Assess(ByHeight(input.blocks, start, end), start, end, input.ctx.slotId).missing == 0
    ensures var a := Assess(ByHeight(input.blocks, start, end), start, end, input.ctx.slotId);
            AnyFails(Rederivation(hash, input, p, ids)) <==>
            forall winners :: !DrawFits(hash, input.ctx, input.record, p, ids, start, end, a.entries, winners)
  {
    var a := Assess(ByHeight(input.blocks, start, end), start, end, input.ctx.slotId);
    PlacedAt(input.record, p, start, end);
    WholeWindowAnswers(hash, input, p, ids, b, start, end);
    RederivationParts(hash, input, p, ids);
    DeriveIsJudge(hash, input, p, ids, b, start, end);
    NothingMissingExactly(ByHeight(input.blocks, start, end), start, end, input.ctx.slotId);
    forall winners
      ensures DrawFits(hash, input.ctx, input.record, p, ids, start, end, a.entries, winners) <==>
              && Derives(hash, input.ctx, input.record, p, ids, Derive(hash, input, p, ids), winners)
              && WinnersHold(hash, input.ctx, input.record, winners)
    {
      DrawFollowsExactly(hash, input.ctx, input.record, b, p, ids, start, end, a, winners);
      DrawFitsExactly(hash, input.ctx, input.record, b, p, ids, start, end, a.entries, winners);
    }
  }

  lemma WholeIsAssessed(input: Input, start: nat, end: nat, entries: seq<Entry>)
    requires start <= end
    ensures var a := Assess(ByHeight(input.blocks, start, end), start, end, input.ctx.slotId);
            IsWhole(input.blocks, start, end, input.ctx.slotId, entries) <==> a.missing == 0 && entries == a.entries
  {
    ByHeightExactly(input.blocks, start, end);
    WholeExactly(input.blocks, start, end, input.ctx.slotId, entries);
    WindowExactly(ByHeight(input.blocks, start, end), start, end, input.ctx.slotId, entries);
  }

  ghost predicate SomeDrawContradicts(hash: Hash, input: Input, p: Parameters, ids: seq<Digest>) {
    exists start: nat, end: nat, entries :: DrawContradicts(hash, input, p, ids, start, end, entries)
  }

  /** In a window that is in place, the re-derivation fails exactly when the draw is contradicted. */
  lemma PlacedWindowFails(hash: Hash, input: Input, p: Parameters, ids: seq<Digest>, b: BeaconRecord,
                          start: nat, end: nat)
    requires |ids| >= 2 && InOrder(ids) && Sound(p) && IsShaped(input.ctx, input.record)
    requires input.record.beacon == Some(b) && IsPlaced(input.record, p, start, end)
    ensures AnyFails(Rederivation(hash, input, p, ids)) <==> SomeDrawContradicts(hash, input, p, ids)
  {
    PlacedAt(input.record, p, start, end);
    var a := Assess(ByHeight(input.blocks, start, end), start, end, input.ctx.slotId);
    NothingMissingExactly(ByHeight(input.blocks, start, end), start, end, input.ctx.slotId);
    DeriveIsJudge(hash, input, p, ids, b, start, end);
    if a.missing == 0 {
      WholeWindowFails(hash, input, p, ids, b, start, end);
      WholeIsAssessed(input, start, end, a.entries);
      if AnyFails(Rederivation(hash, input, p, ids)) {
        assert DrawContradicts(hash, input, p, ids, start, end, a.entries);
      }
    } else {
      UnknownBeaconNeverFails(hash, input, p, ids);
    }
    if s: nat, e: nat, entries :| DrawContradicts(hash, input, p, ids, s, e, entries) {
      PlacedAt(input.record, p, s, e);
      assert s == start && e == end;
      WholeIsAssessed(input, start, end, entries);
    }
  }

  // ---- the theorem ----

  /** Of accepted parameters and candidates, the later checks fail exactly when the list or the draw is refuted. */
  lemma RederivationFails(hash: Hash, input: Input, p: Parameters, ids: seq<Digest>)
    requires WellTyped(input) && ParsedOf(input) == Accepted(p) && IdsOfRecord(input) == Some(ids)
    requires IsShaped(input.ctx, input.record) && !WindowFailed(p, input.record)
    requires SetHashOk(SetHashOf(hash, input), input.record)
    ensures AnyFails(Rederivation(hash, input, p, ids)) <==> CandidatesContradict(hash, input, p, ids)
  {
    var setHash := hash(CandidateSet(input.ctx, ids));
    ParsedExactly(input, p, ids);
    DigestExactly(setHash, input.record.candidateSetHash);
    DigestExactly(setHash, input.record.anchor.committedSetHash);
    if |ids| < 2 {
      ShortListFails(hash, input, p, ids);
    } else if input.record.beacon.None? {
      MissingBeaconFails(hash, input, p, ids);
    } else {
      PlacedExactly(input.record, p);
      var start: nat, end: nat :| IsPlaced(input.record, p, start, end);
      PlacedWindowFails(hash, input, p, ids, input.record.beacon.value, start, end);
    }
  }

  lemma SetHashDiffers(hash: Hash, input: Input, p: Parameters, ids: seq<Digest>)
    requires WellTyped(input) && ParsedOf(input) == Accepted(p) && IdsOfRecord(input) == Some(ids)
    requires !SetHashOk(SetHashOf(hash, input), input.record)
    ensures CandidatesContradict(hash, input, p, ids)
  {
    var setHash := hash(CandidateSet(input.ctx, ids));
    DigestExactly(setHash, input.record.candidateSetHash);
    DigestExactly(setHash, input.record.anchor.committedSetHash);
  }

  /** A mismatch is a failed check, wherever the verifier stops. */
  lemma MismatchIsAFailure(hash: Hash, input: Input)
    requires WellTyped(input) && input.ctx.chainId != ""
    ensures Verify(hash, input) == Mismatch <==>
            || AnyFails(Foundation(hash, input))
            || (IdsOfRecord(input).Some?
                && AnyFails(Rederivation(hash, input, ParsedOf(input).params, IdsOfRecord(input).value)))
  {
    var foundation := Foundation(hash, input);
    if Broken(foundation) {
      var i :| 0 <= i < |foundation| && foundation[i].ok == Fails && foundation[i].name in FOUNDATION_NAMES;
      assert foundation[i].ok == Fails;
    }
    if IdsOfRecord(input).Some? {
      AnyFailsConcat(foundation, Rederivation(hash, input, ParsedOf(input).params, IdsOfRecord(input).value));
    }
  }

  /** What accepted parameters contradict, read off the checks. */
  lemma AcceptedFails(hash: Hash, input: Input, p: Parameters)
    requires WellTyped(input) && ParsedOf(input) == Accepted(p) && IsShaped(input.ctx, input.record)
    ensures ParametersContradict(hash, input, p) <==>
            || !ParamsHashOk(ParamsHashOf(hash, input), input.record)
            || PolicyContradicts(input.policy, input.policyBehind, p)
            || IdsOfRecord(input).None? || !SetHashOk(SetHashOf(hash, input), input.record)
            || WindowFailed(p, input.record)
            || AnyFails(Rederivation(hash, input, p, IdsOfRecord(input).value))
  {
    ParsedExactly(input, p, []);
    PlacedExactly(input.record, p);
    DigestExactly(hash(Params(p, true)), input.record.anchor.committedParamsHash);
    IdsAreOffered(input, p);
    if IdsOfRecord(input).Some? {
      var ids := IdsOfRecord(input).value;
      forall ids' | Offers(input.record.candidates, p[5], ids')
        ensures ids' == ids
      {
        OnlyOffered(input.record.candidates, p[5], ids, ids');
      }
      if !SetHashOk(SetHashOf(hash, input), input.record) {
        SetHashDiffers(hash, input, p, ids);
      } else if !WindowFailed(p, input.record) {
        RederivationFails(hash, input, p, ids);
      }
    }
  }

  /** A draw is a mismatch exactly when it is contradicted. */
  lemma MismatchExactly(hash: Hash, input: Input)
    requires WellTyped(input)
    ensures Verify(hash, input) == Mismatch <==> Contradicted(hash, input)
  {
    if input.ctx.chainId == "" {
      OneFails(Check(ContextAvailable, Unknown));
    } else {
      MismatchIsAFailure(hash, input);
      FoundationFails(hash, input);
      ParsedIsPublished(input);
      RefusesExactly(input.record.parameters);
      if ParsedOf(input).Accepted? && IsShaped(input.ctx, input.record) {
        var p := ParsedOf(input).params;
        AcceptedFails(hash, input, p);
        forall q: Parameters | Publishes(input.record.parameters, q)
          ensures q == p
        {
          OnlyPublished(input, p, q);
        }
      }
    }
  }

  // ---- and the other two verdicts ----

  lemma UndecidedWindow(hash: Hash, input: Input, p: Parameters, ids: seq<Digest>)
    requires |ids| >= 2 && InOrder(ids) && Sound(p)
    requires input.record.beacon.Some? && !WindowFailed(p, input.record)
    requires AllHold(Rederivation(hash, input, p, ids))
    ensures exists start: nat, end: nat, entries ::
              IsPlaced(input.record, p, start, end) && IsWhole(input.blocks, start, end, input.ctx.slotId, entries)
  {
    PlacedExactly(input.record, p);
    var start: nat, end: nat :| IsPlaced(input.record, p, start, end);
    PlacedAt(input.record, p, start, end);
    var a := Assess(ByHeight(input.blocks, start, end), start, end, input.ctx.slotId);
    RederivationParts(hash, input, p, ids);
    DeriveIsJudge(hash, input, p, ids, input.record.beacon.value, start, end);
    NothingMissingExactly(ByHeight(input.blocks, start, end), start, end, input.ctx.slotId);
    JudgeExactlyHolds(hash, input.ctx, p, SetDigest(hash, input.ctx, ids), input.record.beacon.value, start, end, a);
    WholeIsAssessed(input, start, end, a.entries);
  }

  lemma VerifiedIsDecidable(hash: Hash, input: Input)
    requires WellTyped(input) && Verify(hash, input) == Verified
    ensures Decidable(input) && !Contradicted(hash, input)
  {
    MismatchExactly(hash, input);
    VerifiedMeansAllHold(hash, input);
    FoundationParts(hash, input);
    ParsedIsPublished(input);
    var p, ids := ParsedOf(input).params, IdsOfRecord(input).value;
    IdsAreOffered(input, p);
    ParsedExactly(input, p, ids);
    if |ids| >= 2 {
      RederivationParts(hash, input, p, ids);
      DerivationNeedsBeacon(hash, input, p, ids);
      UndecidedWindow(hash, input, p, ids);
    }
    assert IsDecidableWith(input, p, ids);
  }

  lemma DecidedFoundation(hash: Hash, input: Input, p: Parameters, ids: seq<Digest>)
    requires WellTyped(input) && input.ctx.chainId != "" && !input.policyBehind && input.anchor.Some?
    requires ParsedOf(input) == Accepted(p) && IdsOfRecord(input) == Some(ids)
    requires !AnyFails(Foundation(hash, input))
    ensures AllHold(Foundation(hash, input))
  {
    FoundationFails(hash, input);
    FoundationParts(hash, input);
    ShapeExactly(input.ctx, input.record);
    AnchorFailsExactly(hash, input);
  }

  lemma DecidedRederivation(hash: Hash, input: Input, p: Parameters, ids: seq<Digest>)
    requires WellTyped(input) && ParsedOf(input) == Accepted(p) && IdsOfRecord(input) == Some(ids)
    requires IsDecidableWith(input, p, ids) && IsShaped(input.ctx, input.record) && !WindowFailed(p, input.record)
    requires !AnyFails(Rederivation(hash, input, p, ids))
    ensures AllHold(Rederivation(hash, input, p, ids))
  {
    ParsedExactly(input, p, ids);
    if |ids| < 2 {
      ShortListFails(hash, input, p, ids);
      ShortListHoldsExactly(hash, input, p, ids);
      ShortListExactly(hash, input, ids);
    } else {
      var start: nat, end: nat, entries :|
        IsPlaced(input.record, p, start, end) && IsWhole(input.blocks, start, end, input.ctx.slotId, entries);
      PlacedAt(input.record, p, start, end);
      WholeIsAssessed(input, start, end, entries);
      WholeWindowAnswers(hash, input, p, ids, input.record.beacon.value, start, end);
    }
  }

  /** A draw is verified exactly when everything needed is there and nothing is contradicted; what is neither verified
      nor contradicted is unverifiable. */
  lemma VerdictExactly(hash: Hash, input: Input)
    requires WellTyped(input)
    ensures Verify(hash, input) == Verified <==> Decidable(input) && !Contradicted(hash, input)
    ensures Verify(hash, input) == Unverifiable <==> !Decidable(input) && !Contradicted(hash, input)
  {
    MismatchExactly(hash, input);
    if Verify(hash, input) == Verified {
      VerifiedIsDecidable(hash, input);
    }
    if Decidable(input) && !Contradicted(hash, input) {
      var p: Parameters, ids :| IsDecidableWith(input, p, ids);
      DecidedIsParsed(input, p, ids);
      MismatchIsAFailure(hash, input);
      FoundationFails(hash, input);
      DecidedFoundation(hash, input, p, ids);
      DecidedRederivation(hash, input, p, ids);
      VerifiedMeansAllHold(hash, input);
    }
  }

  lemma DecidedIsParsed(input: Input, p: Parameters, ids: seq<Digest>)
    requires WellTyped(input) && IsDecidableWith(input, p, ids)
    ensures ParsedOf(input) == Accepted(p) && IdsOfRecord(input) == Some(ids)
  {
    PublishesExactly(input.record.parameters, p);
    OffersExactly(input.record.candidates, p[5], ids);
    ParsedExactly(input, p, ids);
  }
}
