/** What the verifier reports: which checks are listed, in which order, and each with which answer, read off the
    record and the chain data alone. */
module DrawReport {
  import opened Wrappers
  import opened Bytes
  import opened Hex
  import opened Sorting
  import opened WinnerCount
  import opened DrawFraming
  import opened DrawRecord
  import opened DrawBeacon
  import opened DrawVerify
  import opened DrawSoundness
  import opened DrawSpec
  import opened DrawReading
  import opened DrawContradiction

  // ---- the report as it is meant ----

  /** The check is decided, by this question. */
  predicate Decides(ok: Answer, yes: bool) {
    (ok.Holds? <==> yes) && (ok.Fails? <==> !yes)
  }

  /** The checks that are always made. */
  ghost predicate OnRecord(hash: Hash, input: Input, c: Check) {
    match c.name
    case RecordShape => Decides(c.ok, IsShaped(input.ctx, input.record))
    case ParametersValid =>
      && (c.ok.Holds? <==> exists p: Parameters :: Publishes(input.record.parameters, p))
      && (c.ok.Fails? <==> Refuses(input.record.parameters))
    case AnchorCommitment =>
      if input.anchor.None? then c.ok.Unknown? else Decides(c.ok, !AnchorContradicts(hash, input))
    case _ => false
  }

  /** Without parameters there is no digest to compare and no cap on the candidates. */
  predicate LeftOpen(c: Check) {
    c.ok.Unknown? && (c.name.ParametersHash? || c.name.CandidatesCanonical? || c.name.CandidateSetHash?)
  }

  predicate SaysSet(hash: Hash, input: Input, ids: seq<Digest>) {
    && SaysDigest(input.record.candidateSetHash, hash(CandidateSet(input.ctx, ids)))
    && SaysDigest(input.record.anchor.committedSetHash, hash(CandidateSet(input.ctx, ids)))
  }

  predicate SaysParameters(hash: Hash, input: Input, p: Parameters) {
    SaysDigest(input.record.anchor.committedParamsHash, hash(Params(p, true)))
  }

  predicate HasPolicy(policy: Option<Policy>) {
    policy.Some? && (policy.value.rateBps.Some? || policy.value.maxSelected.Some?)
  }

  /** The checks on published parameters. */
  ghost predicate OnParameters(hash: Hash, input: Input, p: Parameters, c: Check) {
    match c.name
    case ParametersHash => Decides(c.ok, SaysParameters(hash, input, p))
    case PolicyMatch =>
      if input.policyBehind then c.ok.Unknown?
      else HasPolicy(input.policy) && Decides(c.ok, !PolicyContradicts(input.policy, false, p))
    case CandidatesCanonical => Decides(c.ok, exists ids :: Offers(input.record.candidates, p[5], ids))
    case CandidateSetHash =>
      && (c.ok.Holds? <==> exists ids :: Offers(input.record.candidates, p[5], ids) && SaysSet(hash, input, ids))
      && (c.ok.Fails? <==> exists ids :: Offers(input.record.candidates, p[5], ids) && !SaysSet(hash, input, ids))
    case WindowPlacement =>
      input.record.beacon.Some? && Decides(c.ok, exists start: nat, end: nat :: IsPlaced(input.record, p, start, end))
    case _ => false
  }

  /** The record's parts belong together, so that the outcome can be derived. */
  ghost predicate Proceeds(hash: Hash, input: Input, p: Parameters, ids: seq<Digest>) {
    && Offers(input.record.candidates, p[5], ids)
    && IsShaped(input.ctx, input.record) && !AnchorContradicts(hash, input)
    && SaysParameters(hash, input, p) && SaysSet(hash, input, ids)
  }

  /** The checks on fewer than two candidates. */
  predicate OnShortList(hash: Hash, input: Input, ids: seq<Digest>, c: Check) {
    var r := input.record;
    match c.name
    case BeaconShape => r.beacon.Some? && c.ok.Fails?
    case OutcomeRederived => Decides(c.ok, r.outcome == Str(if |ids| == 0 then "NO_CANDIDATES" else "SUCCESS"))
    case WinnersRedrawn => Decides(c.ok, IsNumber(r.k, |ids|) && ListsWinners(r, ids))
    case SelectedHash => Decides(c.ok, SaysDigest(r.selectedHash, hash(Selected(input.ctx, ids))))
    case _ => false
  }

  /** Two or more candidates without a beacon section, or with a window that is not wholly known. */
  predicate OnUnknownWindow(input: Input, c: Check) {
    match c.name
    case BeaconRecomputed => if input.record.beacon.None? then c.ok.Fails? else c.ok.Unknown?
    case OutcomeRederived => c.ok.Unknown?
    case _ => false
  }

  /** The published beacon hash is that of an admissible window, or absent for one that is not. */
  predicate SaysBeacon(hash: Hash, ctx: Context, p: Parameters, ids: seq<Digest>, b: BeaconRecord, start: nat,
                       end: nat, entries: seq<Entry>)
  {
    if IsAdmissible(p, entries) then SaysDigest(b.hash, BeaconOf(hash, ctx, ids, start, end, entries))
    else b.hash == Null
  }

  /** The checks on a window that is known. With another hash than that of an admissible window nothing is drawn. */
  ghost predicate OnWindow(hash: Hash, input: Input, p: Parameters, ids: seq<Digest>, start: nat, end: nat,
                           entries: seq<Entry>, c: Check)
    requires input.record.beacon.Some?
  {
    var r, b := input.record, input.record.beacon.value;
    var drawn := IsAdmissible(p, entries) ==> SaysBeacon(hash, input.ctx, p, ids, b, start, end, entries);
    var numbered := IsNumber(r.k, WinnersOf(|ids|, p[2], p[3], p[4]));
    match c.name
    case BeaconRecomputed =>
      Decides(c.ok, CountsWindow(b, p, entries) && SaysBeacon(hash, input.ctx, p, ids, b, start, end, entries))
    case OutcomeRederived =>
      Decides(c.ok, r.outcome == Str(if IsAdmissible(p, entries) then "SUCCESS" else "NO_VALID_BEACON"))
    case WinnersRedrawn =>
      if !drawn then (c.ok.Unknown? <==> numbered) && (c.ok.Fails? <==> !numbered)
      else Decides(c.ok, numbered && exists winners ::
             AreWinners(hash, input.ctx, p, ids, start, end, entries, winners) && ListsWinners(r, winners))
    case SelectedHash =>
      drawn && Decides(c.ok, exists winners ::
        && AreWinners(hash, input.ctx, p, ids, start, end, entries, winners)
        && SaysDigest(r.selectedHash, hash(Selected(input.ctx, winners))))
    case _ => false
  }

  ghost predicate OnDraw(hash: Hash, input: Input, p: Parameters, ids: seq<Digest>, c: Check) {
    if |ids| < 2 then OnShortList(hash, input, ids, c)
    else if input.record.beacon.None? then OnUnknownWindow(input, c)
    else
      exists start: nat, end: nat ::
        && IsPlaced(input.record, p, start, end)
        && if exists entries :: IsWhole(input.blocks, start, end, input.ctx.slotId, entries) then
             exists entries ::
               && IsWhole(input.blocks, start, end, input.ctx.slotId, entries)
               && OnWindow(hash, input, p, ids, start, end, entries, c)
           else OnUnknownWindow(input, c)
  }

  ghost predicate OnPublished(hash: Hash, input: Input, p: Parameters, c: Check) {
    || OnParameters(hash, input, p, c)
    || exists ids :: Proceeds(hash, input, p, ids) && OnDraw(hash, input, p, ids, c)
  }

  ghost predicate IsReported(hash: Hash, input: Input, c: Check) {
    if input.ctx.chainId == "" then c == Check(ContextAvailable, Unknown)
    else
      || OnRecord(hash, input, c)
      || (LeftOpen(c) && forall p: Parameters :: !Publishes(input.record.parameters, p))
      || exists p: Parameters :: Publishes(input.record.parameters, p) && OnPublished(hash, input, p, c)
  }

  // ---- the foundation ----

  lemma DecidedOf(ok: Answer, yes: bool)
    ensures Decides(ok, yes) <==> ok == Of(yes)
  {
  }

  lemma InSix(c: Check, x: seq<Check>, y: seq<Check>, z: seq<Check>, u: seq<Check>, v: seq<Check>, w: seq<Check>)
    ensures c in x + y + z + u + v + w <==> c in x || c in y || c in z || c in u || c in v || c in w
  {
  }

  lemma AnchorReport(hash: Hash, input: Input, ok: Answer)
    requires WellTyped(input)
    ensures ok == AnchorAnswer(input.anchor, input.ctx, SetHashOf(hash, input), ParamsHashOf(hash, input),
                               ToBounded(input.record.anchor.confirmedHeight)) <==>
            if input.anchor.None? then ok.Unknown? else Decides(ok, !AnchorContradicts(hash, input))
  {
    AnchorFailsExactly(hash, input);
  }

  predicate IsOnRecord(name: Name) {
    name.RecordShape? || name.ParametersValid? || name.AnchorCommitment?
  }

  lemma RecordReport(hash: Hash, input: Input, c: Check)
    requires WellTyped(input) && IsOnRecord(c.name)
    ensures c in Foundation(hash, input) <==> OnRecord(hash, input, c)
  {
    InFoundation(hash, input, c);
    ShapeExactly(input.ctx, input.record);
    ParsedIsPublished(input);
    RefusesExactly(input.record.parameters);
    AnchorReport(hash, input, c.ok);
  }

  /** The foundation in its six parts. */
  lemma InFoundation(hash: Hash, input: Input, c: Check)
    requires WellTyped(input)
    ensures var r, parsed, confirmed := input.record, ParsedOf(input), ToBounded(input.record.anchor.confirmedHeight);
            c in Foundation(hash, input) <==>
            || c == Check(RecordShape, Of(ShapeOk(input.ctx, r)))
            || c in ParameterChecks(parsed, ParamsHashOk(ParamsHashOf(hash, input), r))
            || (parsed.Accepted? && c in PolicyChecks(input.policy, input.policyBehind, parsed.params))
            || c in CandidateChecks(parsed.Accepted?, IdsOfRecord(input).Some?, SetHashOk(SetHashOf(hash, input), r))
            || c == Check(AnchorCommitment, AnchorAnswer(input.anchor, input.ctx, SetHashOf(hash, input),
                                                         ParamsHashOf(hash, input), confirmed))
            || (parsed.Accepted? && c in WindowChecks(parsed.params, r.beacon, confirmed))
  {
    var r, parsed, confirmed := input.record, ParsedOf(input), ToBounded(input.record.anchor.confirmedHeight);
    InSix(c, [Check(RecordShape, Of(ShapeOk(input.ctx, r)))],
          ParameterChecks(parsed, ParamsHashOk(ParamsHashOf(hash, input), r)),
          if parsed.Accepted? then PolicyChecks(input.policy, input.policyBehind, parsed.params) else [],
          CandidateChecks(parsed.Accepted?, IdsOfRecord(input).Some?, SetHashOk(SetHashOf(hash, input), r)),
          [Check(AnchorCommitment, AnchorAnswer(input.anchor, input.ctx, SetHashOf(hash, input),
                                                ParamsHashOf(hash, input), confirmed))],
          if parsed.Accepted? then WindowChecks(parsed.params, r.beacon, confirmed) else []);
  }

  lemma UnparsedReport(hash: Hash, input: Input, c: Check)
    requires WellTyped(input) && !ParsedOf(input).Accepted?
    ensures c in Foundation(hash, input) <==> OnRecord(hash, input, c) || LeftOpen(c)
  {
    InFoundation(hash, input, c);
    if IsOnRecord(c.name) {
      RecordReport(hash, input, c);
    }
  }

  lemma PolicyReport(hash: Hash, input: Input, p: Parameters, c: Check)
    requires c.name.PolicyMatch?
    ensures c in PolicyChecks(input.policy, input.policyBehind, p) <==> OnParameters(hash, input, p, c)
  {
  }

  /** At most one list is offered, and it is the parsed one. */
  lemma OfferedExactly(input: Input, p: Parameters, ids: seq<Digest>)
    requires WellTyped(input) && ParsedOf(input) == Accepted(p)
    ensures Offers(input.record.candidates, p[5], ids) <==> IdsOfRecord(input) == Some(ids)
  {
    IdsAreOffered(input, p);
    if Offers(input.record.candidates, p[5], ids) {
      OnlyOffered(input.record.candidates, p[5], ids, IdsOfRecord(input).value);
    }
  }

  lemma CandidatesReport(hash: Hash, input: Input, p: Parameters, c: Check)
    requires WellTyped(input) && ParsedOf(input) == Accepted(p)
    requires c.name.CandidatesCanonical? || c.name.CandidateSetHash?
    ensures c in CandidateChecks(true, IdsOfRecord(input).Some?, SetHashOk(SetHashOf(hash, input), input.record)) <==>
            OnParameters(hash, input, p, c)
  {
    var offered, setOk := IdsOfRecord(input), SetHashOk(SetHashOf(hash, input), input.record);
    forall ids
      ensures Offers(input.record.candidates, p[5], ids) <==> offered == Some(ids)
    {
      OfferedExactly(input, p, ids);
    }
    if offered.Some? {
      SetHashExactly(hash, input);
      assert Offers(input.record.candidates, p[5], offered.value);
      SetReport(c, setOk);
    } else {
      assert c in CandidateChecks(true, false, setOk) <==>
             if c.name.CandidatesCanonical? then c.ok.Fails? else c.ok.Unknown?;
    }
  }

  lemma SetReport(c: Check, setOk: bool)
    requires c.name.CandidatesCanonical? || c.name.CandidateSetHash?
    ensures c in CandidateChecks(true, true, setOk) <==>
            if c.name.CandidatesCanonical? then c.ok.Holds? else Decides(c.ok, setOk)
  {
  }

  lemma SetHashExactly(hash: Hash, input: Input)
    requires WellTyped(input) && IdsOfRecord(input).Some?
    ensures SetHashOk(SetHashOf(hash, input), input.record) <==> SaysSet(hash, input, IdsOfRecord(input).value)
  {
    var setHash := hash(CandidateSet(input.ctx, IdsOfRecord(input).value));
    DigestExactly(setHash, input.record.candidateSetHash);
    DigestExactly(setHash, input.record.anchor.committedSetHash);
  }

  lemma PlacementReport(hash: Hash, input: Input, p: Parameters, c: Check)
    requires Sound(p) && c.name.WindowPlacement?
    ensures c in WindowChecks(p, input.record.beacon, ToBounded(input.record.anchor.confirmedHeight)) <==>
            OnParameters(hash, input, p, c)
  {
    PlacedExactly(input.record, p);
  }

  /** Each check comes from one part of the foundation. */
  lemma PartOf(hash: Hash, input: Input, p: Parameters, c: Check)
    requires WellTyped(input) && ParsedOf(input) == Accepted(p) && !IsOnRecord(c.name)
    ensures c in Foundation(hash, input) <==>
            match c.name
            case ParametersHash => c.ok == Of(ParamsHashOk(Some(ParamsDigest(hash, p)), input.record))
            case PolicyMatch => c in PolicyChecks(input.policy, input.policyBehind, p)
            case CandidatesCanonical =>
              c in CandidateChecks(true, IdsOfRecord(input).Some?, SetHashOk(SetHashOf(hash, input), input.record))
            case CandidateSetHash =>
              c in CandidateChecks(true, IdsOfRecord(input).Some?, SetHashOk(SetHashOf(hash, input), input.record))
            case WindowPlacement =>
              c in WindowChecks(p, input.record.beacon, ToBounded(input.record.anchor.confirmedHeight))
            case _ => false
  {
    InFoundation(hash, input, c);
  }

  lemma ParametersReport(hash: Hash, input: Input, p: Parameters, c: Check)
    requires WellTyped(input) && ParsedOf(input) == Accepted(p) && !IsOnRecord(c.name)
    ensures c in Foundation(hash, input) <==> OnParameters(hash, input, p, c)
  {
    PartOf(hash, input, p, c);
    if c.name.ParametersHash? {
      DigestExactly(hash(Params(p, true)), input.record.anchor.committedParamsHash);
    } else if c.name.PolicyMatch? {
      PolicyReport(hash, input, p, c);
    } else if c.name.CandidatesCanonical? || c.name.CandidateSetHash? {
      CandidatesReport(hash, input, p, c);
    } else if c.name.WindowPlacement? {
      ParsedExactly(input, p, []);
      PlacementReport(hash, input, p, c);
    }
  }

  lemma ParsedReport(hash: Hash, input: Input, p: Parameters, c: Check)
    requires WellTyped(input) && ParsedOf(input) == Accepted(p)
    ensures c in Foundation(hash, input) <==> OnRecord(hash, input, c) || OnParameters(hash, input, p, c)
  {
    if IsOnRecord(c.name) {
      RecordReport(hash, input, c);
    } else {
      ParametersReport(hash, input, p, c);
    }
  }

  // ---- the re-derivation ----

  lemma InRederivation(hash: Hash, input: Input, p: Parameters, ids: seq<Digest>, d: Derivation, c: Check)
    requires d == Derive(hash, input, p, ids)
    ensures c in Rederivation(hash, input, p, ids) <==>
            || c in d.checks
            || c in OutcomeChecks(input.record.outcome, d, WindowFailed(p, input.record))
            || (d.outcome.Some? &&
                var k := ExpectedK(p, d.outcome.value, |ids|);
                c in WinnerChecks(hash, input.ctx, input.record, k,
                                  ExpectedWinners(hash, input.ctx, ids, d.outcome.value, d.beaconHash, k)))
  {
  }

  /** The checks on the winners, given the ones expected. */
  ghost predicate OnWinners(hash: Hash, ctx: Context, r: Record, k: nat, winners: Option<seq<Digest>>, c: Check) {
    match c.name
    case WinnersRedrawn =>
      if winners.None? then (c.ok.Unknown? <==> IsNumber(r.k, k)) && (c.ok.Fails? <==> !IsNumber(r.k, k))
      else Decides(c.ok, IsNumber(r.k, k) && ListsWinners(r, winners.value))
    case SelectedHash =>
      winners.Some? && Decides(c.ok, SaysDigest(r.selectedHash, hash(Selected(ctx, winners.value))))
    case _ => false
  }

  lemma WinnersReport(hash: Hash, ctx: Context, r: Record, k: nat, winners: Option<seq<Digest>>, c: Check)
    requires IsShaped(ctx, r)
    ensures c in WinnerChecks(hash, ctx, r, k, winners) <==> OnWinners(hash, ctx, r, k, winners, c)
  {
    NumberExactly(r.k, k);
    if winners.Some? {
      ListExactly(ctx, r, winners.value);
      DigestExactly(hash(Selected(ctx, winners.value)), r.selectedHash);
    }
  }

  lemma ShortListReport(hash: Hash, input: Input, p: Parameters, ids: seq<Digest>, c: Check)
    requires |ids| < 2 && IsShaped(input.ctx, input.record)
    ensures c in Rederivation(hash, input, p, ids) <==> OnShortList(hash, input, ids, c)
  {
    var d := Derive(hash, input, p, ids);
    InRederivation(hash, input, p, ids, d, c);
    assert ids == [] || d.outcome == Some(Success);
    WinnersReport(hash, input.ctx, input.record, |ids|, Some(ids), c);
  }

  lemma NoBeaconReport(hash: Hash, input: Input, p: Parameters, ids: seq<Digest>, c: Check)
    requires |ids| >= 2 && input.record.beacon.None?
    ensures c in Rederivation(hash, input, p, ids) <==> OnUnknownWindow(input, c)
  {
    InRederivation(hash, input, p, ids, Derive(hash, input, p, ids), c);
  }

  lemma MisplacedReport(hash: Hash, input: Input, p: Parameters, ids: seq<Digest>, c: Check)
    requires |ids| >= 2 && WindowFailed(p, input.record)
    ensures c !in Rederivation(hash, input, p, ids)
  {
    InRederivation(hash, input, p, ids, Derive(hash, input, p, ids), c);
  }

  lemma UnknownWindowReport(hash: Hash, input: Input, p: Parameters, ids: seq<Digest>, b: BeaconRecord,
                            start: nat, end: nat, c: Check)
    requires |ids| >= 2 && input.record.beacon == Some(b) && !WindowFailed(p, input.record)
    requires ToBounded(b.startHeight) == Some(start) && ToBounded(b.endHeight) == Some(end)
    requires Assess(ByHeight(input.blocks, start, end), start, end, input.ctx.slotId).missing > 0
    ensures c in Rederivation(hash, input, p, ids) <==> OnUnknownWindow(input, c)
  {
    DeriveIsJudge(hash, input, p, ids, b, start, end);
    InRederivation(hash, input, p, ids, Derive(hash, input, p, ids), c);
  }

  /** The winners that the verifier expects are the ones that follow, when the beacon was reproduced. */
  lemma ExpectedExactly(hash: Hash, ctx: Context, p: Parameters, ids: seq<Digest>, start: nat, end: nat,
                        entries: seq<Entry>, outcome: Outcome, winners: seq<Digest>)
    requires |ids| >= 2 && InOrder(ids)
    requires outcome == if IsAdmissible(p, entries) then Success else NoValidBeacon
    ensures var k := WinnersOf(|ids|, p[2], p[3], p[4]);
            AreWinners(hash, ctx, p, ids, start, end, entries, winners) <==>
            ExpectedWinners(hash, ctx, ids, outcome, Some(BeaconOf(hash, ctx, ids, start, end, entries)), k)
            == Some(winners)
  {
    var k, setHash := WinnersOf(|ids|, p[2], p[3], p[4]), hash(CandidateSet(ctx, ids));
    var beaconHash := BeaconOf(hash, ctx, ids, start, end, entries);
    DrawExactly(hash, ctx, setHash, beaconHash, ids, k, winners);
    DrawnExactly(hash, ctx, setHash, beaconHash, ids, winners);
  }

  lemma CountsExactly(b: BeaconRecord, p: Parameters, a: Assessment)
    requires a.usable == |a.entries| && a.distinct == |Slots(a.entries)|
    requires a.usable + a.excludedTarget == WindowBlocks(p)
    ensures Admissible(p, a) <==> IsAdmissible(p, a.entries)
    ensures CountsOk(p, b, a) <==> CountsWindow(b, p, a.entries)
  {
    NumberExactly(b.usableBlocks, |a.entries|);
    NumberExactly(b.excludedTargetBlocks, a.excludedTarget);
    NumberExactly(b.unattributableBlocks, 0);
    NumberExactly(b.distinctProposers, |Slots(a.entries)|);
  }

  /** What is derived from a known window. */
  lemma JudgedExactly(hash: Hash, ctx: Context, p: Parameters, ids: seq<Digest>, b: BeaconRecord, start: nat,
                      end: nat, a: Assessment)
    requires a.missing == 0 && a.usable == |a.entries| && a.distinct == |Slots(a.entries)|
    requires a.usable + a.excludedTarget == WindowBlocks(p)
    ensures var d := JudgeBeacon(hash, ctx, p, SetDigest(hash, ctx, ids), b, start, end, a);
            var admissible := IsAdmissible(p, a.entries);
            var says := SaysBeacon(hash, ctx, p, ids, b, start, end, a.entries);
            && d.checks == [Check(BeaconRecomputed, Of(CountsWindow(b, p, a.entries) && says))]
            && d.outcome == Some(if admissible then Success else NoValidBeacon)
            && d.beaconHash ==
               if admissible && says then Some(BeaconOf(hash, ctx, ids, start, end, a.entries)) else None
  {
    CountsExactly(b, p, a);
    DigestExactly(BeaconOf(hash, ctx, ids, start, end, a.entries), b.hash);
  }

  /** The verdict on the winners of a known window. */
  lemma DrawnReport(hash: Hash, input: Input, p: Parameters, ids: seq<Digest>, start: nat, end: nat,
                    entries: seq<Entry>, beaconHash: Option<Digest>, c: Check)
    requires |ids| >= 2 && InOrder(ids) && input.record.beacon.Some?
    requires c.name.WinnersRedrawn? || c.name.SelectedHash?
    requires beaconHash == if IsAdmissible(p, entries) && SaysBeacon(hash, input.ctx, p, ids, input.record.beacon.value,
                                                                     start, end, entries)
                           then Some(BeaconOf(hash, input.ctx, ids, start, end, entries)) else None
    ensures var outcome := if IsAdmissible(p, entries) then Success else NoValidBeacon;
            var k := WinnersOf(|ids|, p[2], p[3], p[4]);
            var winners := ExpectedWinners(hash, input.ctx, ids, outcome, beaconHash, k);
            OnWinners(hash, input.ctx, input.record, k, winners, c) <==>
            OnWindow(hash, input, p, ids, start, end, entries, c)
  {
    var outcome := if IsAdmissible(p, entries) then Success else NoValidBeacon;
    var k := WinnersOf(|ids|, p[2], p[3], p[4]);
    var winners := ExpectedWinners(hash, input.ctx, ids, outcome, beaconHash, k);
    if winners.Some? {
      forall w
        ensures AreWinners(hash, input.ctx, p, ids, start, end, entries, w) <==> winners == Some(w)
      {
        ExpectedExactly(hash, input.ctx, p, ids, start, end, entries, outcome, w);
      }
    }
  }

  lemma KnownWindowReport(hash: Hash, input: Input, p: Parameters, ids: seq<Digest>, b: BeaconRecord,
                          start: nat, end: nat, c: Check)
    requires |ids| >= 2 && InOrder(ids) && IsShaped(input.ctx, input.record)
    requires input.record.beacon == Some(b) && !WindowFailed(p, input.record)
    requires ToBounded(b.startHeight) == Some(start) && ToBounded(b.endHeight) == Some(end)
    requires start <= end && end - start + 1 == WindowBlocks(p)
    requires Assess(ByHeight(input.blocks, start, end), start, end, input.ctx.slotId).missing == 0
    ensures var a := Assess(ByHeight(input.blocks, start, end), start, end, input.ctx.slotId);
            c in Rederivation(hash, input, p, ids) <==> OnWindow(hash, input, p, ids, start, end, a.entries, c)
  {
    var a := Assess(ByHeight(input.blocks, start, end), start, end, input.ctx.slotId);
    var d := JudgeBeacon(hash, input.ctx, p, SetDigest(hash, input.ctx, ids), b, start, end, a);
    NothingMissingExactly(ByHeight(input.blocks, start, end), start, end, input.ctx.slotId);
    DeriveIsJudge(hash, input, p, ids, b, start, end);
    JudgedExactly(hash, input.ctx, p, ids, b, start, end, a);
    InRederivation(hash, input, p, ids, d, c);
    var k := WinnersOf(|ids|, p[2], p[3], p[4]);
    WinnersReport(hash, input.ctx, input.record, k,
                  ExpectedWinners(hash, input.ctx, ids, d.outcome.value, d.beaconHash, k), c);
    if c.name.WinnersRedrawn? || c.name.SelectedHash? {
      DrawnReport(hash, input, p, ids, start, end, a.entries, d.beaconHash, c);
    }
  }

  lemma PlacedReport(hash: Hash, input: Input, p: Parameters, ids: seq<Digest>, start: nat, end: nat, c: Check)
    requires |ids| >= 2 && InOrder(ids) && Sound(p) && IsShaped(input.ctx, input.record)
    requires IsPlaced(input.record, p, start, end)
    ensures c in Rederivation(hash, input, p, ids) <==> OnDraw(hash, input, p, ids, c)
  {
    PlacedAt(input.record, p, start, end);
    var a := Assess(ByHeight(input.blocks, start, end), start, end, input.ctx.slotId);
    forall entries
      ensures IsWhole(input.blocks, start, end, input.ctx.slotId, entries) <==> a.missing == 0 && entries == a.entries
    {
      WholeIsAssessed(input, start, end, entries);
    }
    forall s: nat, e: nat | IsPlaced(input.record, p, s, e)
      ensures s == start && e == end
    {
      PlacedAt(input.record, p, s, e);
    }
    NothingMissingExactly(ByHeight(input.blocks, start, end), start, end, input.ctx.slotId);
    if a.missing == 0 {
      KnownWindowReport(hash, input, p, ids, input.record.beacon.value, start, end, c);
      assert IsWhole(input.blocks, start, end, input.ctx.slotId, a.entries);
    } else {
      UnknownWindowReport(hash, input, p, ids, input.record.beacon.value, start, end, c);
    }
  }

  lemma RederivationReport(hash: Hash, input: Input, p: Parameters, ids: seq<Digest>, c: Check)
    requires InOrder(ids) && Sound(p) && IsShaped(input.ctx, input.record)
    ensures c in Rederivation(hash, input, p, ids) <==> OnDraw(hash, input, p, ids, c)
  {
    if |ids| < 2 {
      ShortListReport(hash, input, p, ids, c);
    } else if input.record.beacon.None? {
      NoBeaconReport(hash, input, p, ids, c);
    } else {
      PlacedExactly(input.record, p);
      if WindowFailed(p, input.record) {
        MisplacedReport(hash, input, p, ids, c);
      } else {
        var start: nat, end: nat :| IsPlaced(input.record, p, start, end);
        PlacedReport(hash, input, p, ids, start, end, c);
      }
    }
  }

  // ---- the theorem ----

  /** The parts belong together exactly when no check that stops the verifier fails. */
  lemma ProceedsExactly(hash: Hash, input: Input, p: Parameters, ids: seq<Digest>)
    requires WellTyped(input) && ParsedOf(input) == Accepted(p)
    ensures Proceeds(hash, input, p, ids) <==> IdsOfRecord(input) == Some(ids) && !Broken(Foundation(hash, input))
  {
    OfferedExactly(input, p, ids);
    if IdsOfRecord(input) == Some(ids) {
      SetHashExactly(hash, input);
      BrokenExactly(hash, input, p, ids);
    }
  }

  lemma BrokenBy(checks: seq<Check>)
    ensures Broken(checks) <==>
            || Check(RecordShape, Fails) in checks || Check(ParametersValid, Fails) in checks
            || Check(ParametersHash, Fails) in checks || Check(CandidateSetHash, Fails) in checks
            || Check(AnchorCommitment, Fails) in checks
  {
    if Broken(checks) {
      var i :| 0 <= i < |checks| && checks[i].ok == Fails && checks[i].name in FOUNDATION_NAMES;
      assert checks[i] == Check(checks[i].name, Fails) && checks[i] in checks;
    }
  }

  lemma BrokenExactly(hash: Hash, input: Input, p: Parameters, ids: seq<Digest>)
    requires WellTyped(input) && ParsedOf(input) == Accepted(p) && IdsOfRecord(input) == Some(ids)
    ensures Broken(Foundation(hash, input)) <==>
            || !IsShaped(input.ctx, input.record) || AnchorContradicts(hash, input)
            || !SaysParameters(hash, input, p) || !SaysSet(hash, input, ids)
  {
    BrokenBy(Foundation(hash, input));
    RecordReport(hash, input, Check(RecordShape, Fails));
    RecordReport(hash, input, Check(ParametersValid, Fails));
    RefusesExactly(input.record.parameters);
    RecordReport(hash, input, Check(AnchorCommitment, Fails));
    ParametersReport(hash, input, p, Check(ParametersHash, Fails));
    SetHashFails(hash, input, p, ids);
  }

  lemma SetHashFails(hash: Hash, input: Input, p: Parameters, ids: seq<Digest>)
    requires WellTyped(input) && ParsedOf(input) == Accepted(p) && IdsOfRecord(input) == Some(ids)
    ensures Check(CandidateSetHash, Fails) in Foundation(hash, input) <==> !SaysSet(hash, input, ids)
  {
    PartOf(hash, input, p, Check(CandidateSetHash, Fails));
    SetHashExactly(hash, input);
    SetReport(Check(CandidateSetHash, Fails), SetHashOk(SetHashOf(hash, input), input.record));
  }

  /** The verifier reports exactly these checks. */
  lemma ReportExactly(hash: Hash, input: Input, c: Check)
    requires WellTyped(input)
    ensures c in Checks(hash, input) <==> IsReported(hash, input, c)
  {
    if input.ctx.chainId != "" {
      ParsedIsPublished(input);
      if ParsedOf(input).Accepted? {
        PublishedReport(hash, input, ParsedOf(input).params, c);
      } else {
        UnparsedReport(hash, input, c);
      }
    }
  }

  lemma PublishedReport(hash: Hash, input: Input, p: Parameters, c: Check)
    requires WellTyped(input) && ParsedOf(input) == Accepted(p) && input.ctx.chainId != ""
    ensures c in Checks(hash, input) <==> IsReported(hash, input, c)
  {
    ParsedIsPublished(input);
    ParsedReport(hash, input, p, c);
    forall q: Parameters | Publishes(input.record.parameters, q)
      ensures q == p
    {
      OnlyPublished(input, p, q);
    }
    forall ids
      ensures Proceeds(hash, input, p, ids) <==> IdsOfRecord(input) == Some(ids) && !Broken(Foundation(hash, input))
    {
      ProceedsExactly(hash, input, p, ids);
    }
    if IdsOfRecord(input).Some? && !Broken(Foundation(hash, input)) {
      var ids := IdsOfRecord(input).value;
      ParsedExactly(input, p, ids);
      assert Proceeds(hash, input, p, ids);
      RederivationReport(hash, input, p, ids, c);
    }
  }

  // ---- the order ----

  function Position(name: Name): nat {
    match name
    case ContextAvailable => 0
    case RecordShape => 1
    case ParametersValid => 2
    case ParametersHash => 3
    case PolicyMatch => 4
    case CandidatesCanonical => 5
    case CandidateSetHash => 6
    case AnchorCommitment => 7
    case WindowPlacement => 8
    case BeaconShape => 9
    case BeaconRecomputed => 10
    case OutcomeRederived => 11
    case WinnersRedrawn => 12
    case SelectedHash => 13
  }

  predicate Ascends(checks: seq<Check>, low: nat, high: nat) {
    && (forall i :: 0 <= i < |checks| ==> low <= Position(checks[i].name) < high)
    && (forall i, j :: 0 <= i < j < |checks| ==> Position(checks[i].name) < Position(checks[j].name))
  }

  lemma AscendsOn(a: seq<Check>, b: seq<Check>, low: nat, mid: nat, high: nat)
    requires low <= mid <= high && Ascends(a, low, mid) && Ascends(b, mid, high)
    ensures Ascends(a + b, low, high)
  {
  }

  lemma AscendsOnSix(a: seq<Check>, b: seq<Check>, c: seq<Check>, d: seq<Check>, e: seq<Check>, f: seq<Check>)
    requires Ascends(a, 1, 2) && Ascends(b, 2, 4) && Ascends(c, 4, 5)
    requires Ascends(d, 5, 7) && Ascends(e, 7, 8) && Ascends(f, 8, 9)
    ensures Ascends(a + b + c + d + e + f, 1, 9)
  {
    AscendsOn(a, b, 1, 2, 4);
    AscendsOn(a + b, c, 1, 4, 5);
    AscendsOn(a + b + c, d, 1, 5, 7);
    AscendsOn(a + b + c + d, e, 1, 7, 8);
    AscendsOn(a + b + c + d + e, f, 1, 8, 9);
  }

  lemma ParametersAscend(parsed: Parsed, hashOk: bool)
    ensures Ascends(ParameterChecks(parsed, hashOk), 2, 4)
  {
  }

  lemma PolicyAscends(policy: Option<Policy>, behind: bool, p: Parameters)
    ensures Ascends(PolicyChecks(policy, behind, p), 4, 5)
  {
  }

  lemma CandidatesAscend(accepted: bool, canonical: bool, hashOk: bool)
    ensures Ascends(CandidateChecks(accepted, canonical, hashOk), 5, 7)
  {
  }

  lemma WindowAscends(p: Parameters, beacon: Option<BeaconRecord>, confirmed: Option<nat>)
    ensures Ascends(WindowChecks(p, beacon, confirmed), 8, 9)
  {
  }

  lemma FoundationAscends(hash: Hash, input: Input)
    requires WellTyped(input)
    ensures Ascends(Foundation(hash, input), 1, 9)
  {
    var r, parsed, confirmed := input.record, ParsedOf(input), ToBounded(input.record.anchor.confirmedHeight);
    var canonical, setOk := IdsOfRecord(input).Some?, SetHashOk(SetHashOf(hash, input), r);
    var paramsOk := ParamsHashOk(ParamsHashOf(hash, input), r);
    var answer := AnchorAnswer(input.anchor, input.ctx, SetHashOf(hash, input), ParamsHashOf(hash, input), confirmed);
    ParametersAscend(parsed, paramsOk);
    CandidatesAscend(parsed.Accepted?, canonical, setOk);
    if parsed.Accepted? {
      PolicyAscends(input.policy, input.policyBehind, parsed.params);
      WindowAscends(parsed.params, r.beacon, confirmed);
    }
    AscendsOnSix([Check(RecordShape, Of(ShapeOk(input.ctx, r)))], ParameterChecks(parsed, paramsOk),
                 if parsed.Accepted? then PolicyChecks(input.policy, input.policyBehind, parsed.params) else [],
                 CandidateChecks(parsed.Accepted?, canonical, setOk), [Check(AnchorCommitment, answer)],
                 if parsed.Accepted? then WindowChecks(parsed.params, r.beacon, confirmed) else []);
  }

  lemma DerivedAscends(hash: Hash, input: Input, p: Parameters, ids: seq<Digest>)
    ensures Ascends(Derive(hash, input, p, ids).checks, 9, 11)
  {
  }

  lemma OutcomeAscends(published: DrawRecord.Value, d: Derivation, windowFailed: bool)
    ensures Ascends(OutcomeChecks(published, d, windowFailed), 11, 12)
  {
  }

  lemma WinnersAscend(hash: Hash, ctx: Context, r: Record, k: nat, winners: Option<seq<Digest>>)
    ensures Ascends(WinnerChecks(hash, ctx, r, k, winners), 12, 14)
  {
  }

  lemma RederivationAscends(hash: Hash, input: Input, p: Parameters, ids: seq<Digest>)
    ensures Ascends(Rederivation(hash, input, p, ids), 9, 14)
  {
    var d := Derive(hash, input, p, ids);
    var outcome := OutcomeChecks(input.record.outcome, d, WindowFailed(p, input.record));
    DerivedAscends(hash, input, p, ids);
    OutcomeAscends(input.record.outcome, d, WindowFailed(p, input.record));
    AscendsOn(d.checks, outcome, 9, 11, 12);
    if d.outcome.Some? {
      var k := ExpectedK(p, d.outcome.value, |ids|);
      var winners := ExpectedWinners(hash, input.ctx, ids, d.outcome.value, d.beaconHash, k);
      WinnersAscend(hash, input.ctx, input.record, k, winners);
      AscendsOn(d.checks + outcome, WinnerChecks(hash, input.ctx, input.record, k, winners), 9, 12, 14);
    } else {
      AscendsOn(d.checks + outcome, [], 9, 12, 14);
    }
  }

  /** Each check is listed at most once, in one order. */
  lemma ReportIsOrdered(hash: Hash, input: Input)
    requires WellTyped(input)
    ensures Ascends(Checks(hash, input), 0, 14)
  {
    if input.ctx.chainId != "" {
      FoundationAscends(hash, input);
      if IdsOfRecord(input).Some? {
        RederivationAscends(hash, input, ParsedOf(input).params, IdsOfRecord(input).value);
        AscendsOn(Foundation(hash, input),
                  Rederivation(hash, input, ParsedOf(input).params, IdsOfRecord(input).value), 1, 9, 14);
      }
    }
  }
}
