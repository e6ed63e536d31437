/** Independent re-derivation of a published selection draw. The hash is a parameter: nothing here
    depends on which function it is. */
module DrawVerify {
  import opened Wrappers
  import opened Bytes
  import opened Hex
  import opened Sorting
  import opened WinnerCount
  import opened DrawFraming
  import opened DrawRecord
  import opened DrawBeacon

  /** The digest of an input's framed bytes. */
  type Hash = Preimage -> Digest

  // ---- the published record and the indexed chain data ----

  datatype AnchorRecord = AnchorRecord(committedSetHash: Value, committedParamsHash: Value, confirmedHeight: Value)

  datatype BeaconRecord = BeaconRecord(startHeight: Value, endHeight: Value, usableBlocks: Value,
                                       excludedTargetBlocks: Value, unattributableBlocks: Value,
                                       distinctProposers: Value, admissible: Value, hash: Value)

  /** The record's members; `parameters` is absent when it is no object, `beacon` when it is null. */
  datatype Record = Record(version: Value, chainId: Value, slotId: Value, targetEpoch: Value, winners: Value,
                           candidateSetHash: Value, selectedHash: Value, outcome: Value, k: Value,
                           candidates: Value, parameters: Option<ParameterRecord>, anchor: AnchorRecord,
                           beacon: Option<BeaconRecord>)

  datatype Anchor = Anchor(memo: Option<MemoRecord>, height: nat)

  datatype Policy = Policy(version: Option<nat>, rateBps: Option<nat>, maxSelected: Option<nat>)

  datatype Input = Input(ctx: Context, record: Record, anchor: Option<Anchor>, blocks: seq<Block>,
                         policy: Option<Policy>, policyBehind: bool)

  ghost predicate WellTyped(input: Input) {
    input.record.parameters.Some? ==> |input.record.parameters.value.fields| == FIELD_COUNT
  }

  // ---- checks and the verdict ----

  datatype Name =
    | ContextAvailable | RecordShape | ParametersValid | ParametersHash | PolicyMatch | CandidatesCanonical
    | CandidateSetHash | AnchorCommitment | WindowPlacement | BeaconShape | BeaconRecomputed
    | OutcomeRederived | WinnersRedrawn | SelectedHash

  /** A check holds, is contradicted, or could not be computed from the available data. */
  datatype Answer = Holds | Fails | Unknown

  datatype Check = Check(name: Name, ok: Answer)

  datatype Verdict = Verified | Mismatch | Unverifiable

  function Of(b: bool): Answer {
    if b then Holds else Fails
  }

  predicate AnyFails(checks: seq<Check>) {
    exists i :: 0 <= i < |checks| && checks[i].ok == Fails
  }

  predicate AllHold(checks: seq<Check>) {
    forall i :: 0 <= i < |checks| ==> checks[i].ok == Holds
  }

  function VerdictOf(checks: seq<Check>): Verdict {
    if AnyFails(checks) then Mismatch
    else if checks != [] && AllHold(checks) then Verified
    else Unverifiable
  }

  // ---- shape, parameters, policy ----

  predicate AllStrings(items: seq<Value>) {
    forall i :: 0 <= i < |items| ==> items[i].Str?
  }

  /** The record names this chain, slot and epoch, and has its digests and winners. */
  predicate ShapeOk(ctx: Context, r: Record) {
    && ToBounded(r.version) == Some(1)
    && r.chainId == Str(ctx.chainId)
    && ToBounded(r.slotId) == Some(ctx.slotId)
    && ToBounded(r.targetEpoch) == Some(ctx.epoch)
    && (r.winners == Null || (r.winners.Arr? && AllStrings(r.winners.items)))
    && r.candidateSetHash.Str? && r.selectedHash.Str?
    && r.anchor.committedSetHash.Str? && r.anchor.committedParamsHash.Str?
  }

  function ParamsDigest(hash: Hash, p: Parameters): Digest {
    hash(Params(p, true))
  }

  function ParameterChecks(parsed: Parsed, hashOk: bool): seq<Check> {
    match parsed
    case Accepted(_) => [Check(ParametersValid, Holds), Check(ParametersHash, Of(hashOk))]
    case Refused => [Check(ParametersValid, Fails), Check(ParametersHash, Unknown)]
    case BeyondLimits => [Check(ParametersValid, Unknown), Check(ParametersHash, Unknown)]
  }

  predicate ParamsHashOk(paramsHash: Option<Digest>, r: Record) {
    paramsHash.Some? && HexEq(paramsHash.value, r.anchor.committedParamsHash)
  }

  predicate SetHashOk(setHash: Option<Digest>, r: Record) {
    && setHash.Some?
    && HexEq(setHash.value, r.candidateSetHash)
    && HexEq(setHash.value, r.anchor.committedSetHash)
  }

  predicate Agrees(indexed: Option<nat>, named: nat) {
    indexed.None? || indexed.value == named
  }

  function PolicyChecks(policy: Option<Policy>, behind: bool, p: Parameters): seq<Check> {
    if behind then [Check(PolicyMatch, Unknown)]
    else if policy.None? || (policy.value.rateBps.None? && policy.value.maxSelected.None?) then []
    else
      [Check(PolicyMatch, Of(
        && Agrees(policy.value.version, PolicyVersion(p))
        && Agrees(policy.value.rateBps, RateBps(p))
        && Agrees(policy.value.maxSelected, MaxSelected(p))))]
  }

  // ---- candidates and the anchor ----

  function SetDigest(hash: Hash, ctx: Context, ids: seq<Digest>): Digest {
    hash(CandidateSet(ctx, ids))
  }

  function CandidateChecks(accepted: bool, canonical: bool, hashOk: bool): seq<Check> {
    if !accepted then [Check(CandidatesCanonical, Unknown), Check(CandidateSetHash, Unknown)]
    else if !canonical then [Check(CandidatesCanonical, Fails), Check(CandidateSetHash, Unknown)]
    else [Check(CandidatesCanonical, Holds), Check(CandidateSetHash, Of(hashOk))]
  }

  /** The memo commits this slot and epoch, the recomputed digests, and the record names its height. */
  predicate Commits(memo: Memo, ctx: Context, setHash: Option<Digest>, paramsHash: Option<Digest>,
                    confirmed: Option<nat>, height: nat)
  {
    && memo.slot == ctx.slotId && memo.epoch == ctx.epoch
    && (setHash.None? || memo.set_ == ToHex(setHash.value))
    && (paramsHash.None? || memo.params == ToHex(paramsHash.value))
    && confirmed == Some(height)
  }

  function AnchorAnswer(anchor: Option<Anchor>, ctx: Context, setHash: Option<Digest>, paramsHash: Option<Digest>,
                        confirmed: Option<nat>): Answer
  {
    if anchor.None? then Unknown
    else
      var memo := DecodeAnchorMemo(anchor.value.memo);
      if memo.None? then Fails
      else Of(Commits(memo.value, ctx, setHash, paramsHash, confirmed, anchor.value.height))
  }

  /** The window starts at the anchor plus the offset and has the committed length. */
  predicate WindowOk(p: Parameters, b: BeaconRecord, confirmed: Option<nat>) {
    var start, end := ToBounded(b.startHeight), ToBounded(b.endHeight);
    && start.Some? && end.Some? && confirmed.Some?
    && end.value >= start.value
    && end.value - start.value + 1 == WindowBlocks(p)
    && start.value == confirmed.value + StartOffset(p)
    && start.value > confirmed.value
  }

  function WindowChecks(p: Parameters, beacon: Option<BeaconRecord>, confirmed: Option<nat>): seq<Check> {
    if beacon.None? then [] else [Check(WindowPlacement, Of(WindowOk(p, beacon.value, confirmed)))]
  }

  // ---- the beacon and the outcome ----

  datatype Outcome = NoCandidates | Success | NoValidBeacon

  function OutcomeText(o: Outcome): string {
    match o
    case NoCandidates => "NO_CANDIDATES"
    case Success => "SUCCESS"
    case NoValidBeacon => "NO_VALID_BEACON"
  }

  /** What was re-derived: an outcome when the data allowed it, and the beacon hash when it matched. */
  datatype Derivation = Derivation(checks: seq<Check>, outcome: Option<Outcome>, beaconHash: Option<Digest>)

  predicate Admissible(p: Parameters, a: Assessment) {
    a.usable >= MinBlocks(p) && a.distinct >= MinProposers(p)
  }

  predicate CountsOk(p: Parameters, b: BeaconRecord, a: Assessment) {
    && ToBounded(b.usableBlocks) == Some(a.usable)
    && ToBounded(b.excludedTargetBlocks) == Some(a.excludedTarget)
    && ToBounded(b.unattributableBlocks) == Some(0)
    && ToBounded(b.distinctProposers) == Some(a.distinct)
    && b.admissible == Bool(Admissible(p, a))
  }

  function BeaconDigest(hash: Hash, ctx: Context, setHash: Digest, start: nat, end: nat, a: Assessment): Digest {
    hash(Beacon(ctx, setHash, start, end, a.entries))
  }

  function JudgeBeacon(hash: Hash, ctx: Context, p: Parameters, setHash: Digest, b: BeaconRecord,
                       start: nat, end: nat, a: Assessment): Derivation
  {
    if a.missing > 0 then Derivation([Check(BeaconRecomputed, Unknown)], None, None)
    else if Admissible(p, a) then
      var ours := BeaconDigest(hash, ctx, setHash, start, end, a);
      var hashOk := HexEq(ours, b.hash);
      Derivation([Check(BeaconRecomputed, Of(CountsOk(p, b, a) && hashOk))], Some(Success),
                 if hashOk then Some(ours) else None)
    else
      Derivation([Check(BeaconRecomputed, Of(CountsOk(p, b, a) && b.hash == Null))], Some(NoValidBeacon), None)
  }

  function Derive(hash: Hash, input: Input, p: Parameters, ids: seq<Digest>): Derivation {
    var beacon := input.record.beacon;
    if |ids| < 2 then
      Derivation(if beacon.Some? then [Check(BeaconShape, Fails)] else [],
                 Some(if |ids| == 0 then NoCandidates else Success), None)
    else if beacon.None? then Derivation([Check(BeaconRecomputed, Fails)], None, None)
    else if !WindowOk(p, beacon.value, ToBounded(input.record.anchor.confirmedHeight)) then Derivation([], None, None)
    else
      var start, end := ToBounded(beacon.value.startHeight).value, ToBounded(beacon.value.endHeight).value;
      var a := Assess(ByHeight(input.blocks, start, end), start, end, input.ctx.slotId);
      JudgeBeacon(hash, input.ctx, p, SetDigest(hash, input.ctx, ids), beacon.value, start, end, a)
  }

  function OutcomeChecks(published: Value, d: Derivation, windowFailed: bool): seq<Check> {
    if d.outcome.Some? then [Check(OutcomeRederived, Of(published == Str(OutcomeText(d.outcome.value))))]
    else if !windowFailed then [Check(OutcomeRederived, Unknown)]
    else []
  }

  // ---- the winners ----

  datatype Ranked = Ranked(ticket: Digest, id: Digest)

  /** Ranking order: by ticket, then by id. */
  predicate RankBefore(a: Ranked, b: Ranked) {
    Less(a.ticket, b.ticket) || (a.ticket == b.ticket && Less(a.id, b.id))
  }

  function TicketOf(hash: Hash, ctx: Context, setHash: Digest, beaconHash: Digest, id: Digest): Digest {
    hash(Ticket(ctx, setHash, beaconHash, id))
  }

  function Rank(hash: Hash, ctx: Context, setHash: Digest, beaconHash: Digest, ids: seq<Digest>): (rs: seq<Ranked>)
    ensures |rs| == |ids|
  {
    seq(|ids|, i requires 0 <= i < |ids| => Ranked(TicketOf(hash, ctx, setHash, beaconHash, ids[i]), ids[i]))
  }

  function IdsOf(rs: seq<Ranked>): (ids: seq<Digest>)
    ensures |ids| == |rs|
  {
    seq(|rs|, i requires 0 <= i < |rs| => rs[i].id)
  }

  function Draw(hash: Hash, ctx: Context, setHash: Digest, beaconHash: Digest, ids: seq<Digest>, k: nat): seq<Digest> {
    IdsOf(Take(Sort(Rank(hash, ctx, setHash, beaconHash, ids), RankBefore), k))
  }

  function ExpectedK(p: Parameters, outcome: Outcome, candidates: nat): nat {
    if outcome == NoCandidates then 0
    else WinnersOf(candidates, RateBps(p), MaxSelected(p), MaxPerSelection(p))
  }

  function ExpectedWinners(hash: Hash, ctx: Context, ids: seq<Digest>, outcome: Outcome,
                           beaconHash: Option<Digest>, k: nat): Option<seq<Digest>>
  {
    if outcome != Success then Some([])
    else if |ids| == 1 then Some(ids)
    else if beaconHash.None? then None
    else Some(Draw(hash, ctx, SetDigest(hash, ctx, ids), beaconHash.value, ids, k))
  }

  function StringsOf(items: seq<Value>): seq<string> {
    if items == [] then []
    else
      var n := |items| - 1;
      var earlier := StringsOf(items[..n]);
      if items[n].Str? then earlier + [items[n].s] else earlier
  }

  function PublishedWinners(winners: Value): seq<string> {
    if winners.Arr? then StringsOf(winners.items) else []
  }

  function HexList(ids: seq<Digest>): (texts: seq<string>)
    ensures |texts| == |ids|
  {
    seq(|ids|, i requires 0 <= i < |ids| => ToHex(ids[i]))
  }

  function SelectedDigest(hash: Hash, ctx: Context, winners: seq<Digest>): Digest {
    hash(Selected(ctx, winners))
  }

  function WinnerChecks(hash: Hash, ctx: Context, r: Record, k: nat, winners: Option<seq<Digest>>): seq<Check> {
    var kOk := ToBounded(r.k) == Some(k);
    if winners.None? then [Check(WinnersRedrawn, if kOk then Unknown else Fails)]
    else
      [Check(WinnersRedrawn, Of(kOk && PublishedWinners(r.winners) == HexList(winners.value))),
       Check(SelectedHash, Of(HexEq(SelectedDigest(hash, ctx, winners.value), r.selectedHash)))]
  }

  // ---- the whole verification ----

  ghost function ParsedOf(input: Input): Parsed
    requires WellTyped(input)
  {
    ParametersOf(input.record.parameters)
  }

  ghost function IdsOfRecord(input: Input): Option<seq<Digest>>
    requires WellTyped(input)
  {
    if ParsedOf(input).Accepted? then CandidatesOf(input.record.candidates, MaxCandidates(ParsedOf(input).params))
    else None
  }

  ghost function SetHashOf(hash: Hash, input: Input): Option<Digest>
    requires WellTyped(input)
  {
    if IdsOfRecord(input).Some? then Some(SetDigest(hash, input.ctx, IdsOfRecord(input).value)) else None
  }

  ghost function ParamsHashOf(hash: Hash, input: Input): Option<Digest>
    requires WellTyped(input)
  {
    if ParsedOf(input).Accepted? then Some(ParamsDigest(hash, ParsedOf(input).params)) else None
  }

  /** The checks made before any block is looked at. */
  ghost function Foundation(hash: Hash, input: Input): seq<Check>
    requires WellTyped(input)
  {
    var r, parsed, confirmed := input.record, ParsedOf(input), ToBounded(input.record.anchor.confirmedHeight);
    [Check(RecordShape, Of(ShapeOk(input.ctx, r)))]
    + ParameterChecks(parsed, ParamsHashOk(ParamsHashOf(hash, input), r))
    + (if parsed.Accepted? then PolicyChecks(input.policy, input.policyBehind, parsed.params) else [])
    + CandidateChecks(parsed.Accepted?, IdsOfRecord(input).Some?, SetHashOk(SetHashOf(hash, input), r))
    + [Check(AnchorCommitment,
             AnchorAnswer(input.anchor, input.ctx, SetHashOf(hash, input), ParamsHashOf(hash, input), confirmed))]
    + (if parsed.Accepted? then WindowChecks(parsed.params, r.beacon, confirmed) else [])
  }

  const FOUNDATION_NAMES: set<Name> :=
    {RecordShape, CandidateSetHash, AnchorCommitment, ParametersHash, ParametersValid}

  predicate Broken(checks: seq<Check>) {
    exists i :: 0 <= i < |checks| && checks[i].ok == Fails && checks[i].name in FOUNDATION_NAMES
  }

  predicate WindowFailed(p: Parameters, r: Record) {
    r.beacon.Some? && !WindowOk(p, r.beacon.value, ToBounded(r.anchor.confirmedHeight))
  }

  /** The checks on the outcome and the winners of an accepted candidate set. */
  function Rederivation(hash: Hash, input: Input, p: Parameters, ids: seq<Digest>): seq<Check> {
    var d := Derive(hash, input, p, ids);
    d.checks
    + OutcomeChecks(input.record.outcome, d, WindowFailed(p, input.record))
    + (if d.outcome.None? then []
       else
         var k := ExpectedK(p, d.outcome.value, |ids|);
         WinnerChecks(hash, input.ctx, input.record, k,
                      ExpectedWinners(hash, input.ctx, ids, d.outcome.value, d.beaconHash, k)))
  }

  ghost function Checks(hash: Hash, input: Input): seq<Check>
    requires WellTyped(input)
  {
    if input.ctx.chainId == "" then [Check(ContextAvailable, Unknown)]
    else if Broken(Foundation(hash, input)) || IdsOfRecord(input).None? then Foundation(hash, input)
    else Foundation(hash, input) + Rederivation(hash, input, ParsedOf(input).params, IdsOfRecord(input).value)
  }

  ghost function Verify(hash: Hash, input: Input): Verdict
    requires WellTyped(input)
  {
    VerdictOf(Checks(hash, input))
  }

  /** The verifier as it runs: every stage pushes its checks, and a broken foundation stops it before any
      per-block or per-candidate work. */
  method VerifyDraw(hash: Hash, input: Input) returns (result: Verdict, checks: seq<Check>)
    requires WellTyped(input)
    ensures checks == Checks(hash, input) && result == Verify(hash, input)
  {
    if input.ctx.chainId == "" {
      checks := [Check(ContextAvailable, Unknown)];
      return VerdictOf(checks), checks;
    }
    var r := input.record;
    checks := [Check(RecordShape, Of(ShapeOk(input.ctx, r)))];
    var parsed := ParseParameters(r.parameters);
    var paramsHash := if parsed.Accepted? then Some(ParamsDigest(hash, parsed.params)) else None;
    checks := checks + ParameterChecks(parsed, ParamsHashOk(paramsHash, r));
    var candidates: Option<seq<Digest>> := None;
    if parsed.Accepted? {
      checks := checks + PolicyChecks(input.policy, input.policyBehind, parsed.params);
      candidates := ParseCandidates(r.candidates, MaxCandidates(parsed.params));
    }
    var setHash := if candidates.Some? then Some(SetDigest(hash, input.ctx, candidates.value)) else None;
    checks := checks + CandidateChecks(parsed.Accepted?, candidates.Some?, SetHashOk(setHash, r));
    var confirmed := ToBounded(r.anchor.confirmedHeight);
    checks := checks + [Check(AnchorCommitment, AnchorAnswer(input.anchor, input.ctx, setHash, paramsHash, confirmed))];
    checks := checks + (if parsed.Accepted? then WindowChecks(parsed.params, r.beacon, confirmed) else []);
    assert checks == Foundation(hash, input);
    if Broken(checks) || candidates.None? {
      return VerdictOf(checks), checks;
    }
    var more := Rederive(hash, input, parsed.params, candidates.value);
    checks := checks + more;
    result := VerdictOf(checks);
  }

  method Rederive(hash: Hash, input: Input, p: Parameters, ids: seq<Digest>) returns (checks: seq<Check>)
    ensures checks == Rederivation(hash, input, p, ids)
  {
    var r := input.record;
    var d := RederiveOutcome(hash, input, p, ids);
    checks := d.checks + OutcomeChecks(r.outcome, d, WindowFailed(p, r));
    if d.outcome.Some? {
      var k := 0;
      if d.outcome.value != NoCandidates {
        k := CountWinners(|ids|, RateBps(p), MaxSelected(p), MaxPerSelection(p));
      }
      var winners := ExpectedWinners(hash, input.ctx, ids, d.outcome.value, d.beaconHash, k);
      checks := checks + WinnerChecks(hash, input.ctx, r, k, winners);
    }
  }

  method RederiveOutcome(hash: Hash, input: Input, p: Parameters, ids: seq<Digest>) returns (d: Derivation)
    ensures d == Derive(hash, input, p, ids)
  {
    var beacon := input.record.beacon;
    if |ids| < 2 {
      var misplaced := if beacon.Some? then [Check(BeaconShape, Fails)] else [];
      return Derivation(misplaced, Some(if |ids| == 0 then NoCandidates else Success), None);
    }
    if beacon.None? {
      return Derivation([Check(BeaconRecomputed, Fails)], None, None);
    }
    if WindowFailed(p, input.record) {
      return Derivation([], None, None);
    }
    var start, end := ToBounded(beacon.value.startHeight).value, ToBounded(beacon.value.endHeight).value;
    var a := AssessBeacon(input.blocks, start, end, input.ctx.slotId);
    d := JudgeBeacon(hash, input.ctx, p, SetDigest(hash, input.ctx, ids), beacon.value, start, end, a);
  }
}
