/** What a selection record, its anchor and the indexed chain say, in their own terms: hexadecimal text, decimal
    numbers, block rows and digests, without any of the verifier's functions. */
module DrawSpec {
  import opened Wrappers
  import opened Bytes
  import Decimal
  import opened Hex
  import opened WinnerCount
  import opened DrawFraming
  import opened DrawRecord
  import opened DrawBeacon
  import opened DrawVerify

  // ---- numbers and digests as published ----

  /** A number of at most twelve digits, as a JSON number or as decimal text. */
  predicate IsNumber(v: Value, n: nat) {
    && n < 1000000000000
    && (v == Num(n as real)
        || (v.Str? && 1 <= |v.s| <= 12 && (forall i :: 0 <= i < |v.s| ==> '0' <= v.s[i] <= '9')
            && Decimal.Value(v.s) == n))
  }

  ghost predicate HasNumber(v: Value) {
    exists n: nat :: IsNumber(v, n)
  }

  /** An unsigned integer, of any size. */
  predicate IsUnsigned(v: Value) {
    || (v.Str? && v.s != "" && forall i :: 0 <= i < |v.s| ==> '0' <= v.s[i] <= '9')
    || (v.Num? && v.n >= 0.0 && v.n == v.n.Floor as real)
  }

  /** The value of a hexadecimal digit of either case, and -1 for every other character. */
  function HexValue(c: char): int {
    if '0' <= c <= '9' then c as int - '0' as int
    else if 'a' <= c <= 'f' then c as int - 'a' as int + 10
    else if 'A' <= c <= 'F' then c as int - 'A' as int + 10
    else -1
  }

  predicate Spells(s: string, d: Digest) {
    |s| == 64 && forall i :: 0 <= i < 32 ==> HexValue(s[2 * i]) == d[i] / 16 && HexValue(s[2 * i + 1]) == d[i] % 16
  }

  predicate SpellsLower(s: string, d: Digest) {
    Spells(s, d) && forall i :: 0 <= i < 64 ==> !('A' <= s[i] <= 'F')
  }

  predicate SaysDigest(v: Value, d: Digest) {
    v.Str? && Spells(v.s, d)
  }

  /** The first byte in which they differ decides. */
  predicate Earlier(a: Digest, b: Digest) {
    exists k :: 0 <= k < 32 && a[k] < b[k] && forall i :: 0 <= i < k ==> a[i] == b[i]
  }

  predicate IsNonZero(d: Digest) {
    exists k :: 0 <= k < 32 && d[k] != 0
  }

  // ---- the record ----

  /** The record is of version 1, names this chain, slot and epoch, and has its digests and winners. */
  predicate IsShaped(ctx: Context, r: Record) {
    && IsNumber(r.version, 1) && r.chainId == Str(ctx.chainId)
    && IsNumber(r.slotId, ctx.slotId) && IsNumber(r.targetEpoch, ctx.epoch)
    && (r.winners.Null? || (r.winners.Arr? && forall i :: 0 <= i < |r.winners.items| ==> r.winners.items[i].Str?))
    && r.candidateSetHash.Str? && r.selectedHash.Str?
    && r.anchor.committedSetHash.Str? && r.anchor.committedParamsHash.Str?
  }

  /** The twelve parameters, in order: version, policy version, rate in basis points, most selected, most selected
      per selection, most candidates, window offset and length, the chain's least blocks and proposers, and the
      selection's own. All are positive, the rate is at most one half, the window has at most 2048 blocks, and the
      selection's thresholds are no stronger than the chain's and fit in the window. */
  predicate Rules(p: Parameters) {
    && (forall i :: 0 <= i < 12 ==> p[i] > 0)
    && p[2] <= 5000 && p[7] <= 2048
    && p[10] <= p[8] && p[11] <= p[9] && p[11] <= p[10] <= p[7]
  }

  predicate Lists(raw: ParameterRecord, p: Parameters) {
    |raw.fields| == 12 && forall i :: 0 <= i < 12 ==> IsNumber(raw.fields[i], p[i])
  }

  predicate Publishes(raw: Option<ParameterRecord>, p: Parameters) {
    raw.Some? && Lists(raw.value, p) && raw.value.exclude == Bool(true) && Rules(p)
  }

  /** A rule that is applied before the length of the window is looked at. */
  predicate BreaksEarlyRule(p: Parameters) {
    p[0] == 0 || p[1] == 0 || p[2] == 0 || p[2] > 5000 || p[3] == 0 || p[4] == 0 || p[6] == 0 || p[7] == 0
  }

  /** The first member without a number is no unsigned integer either. */
  ghost predicate IsNotNumber(fields: seq<Value>, i: nat) {
    && i < |fields| && !HasNumber(fields[i]) && !IsUnsigned(fields[i])
    && forall j :: 0 <= j < i ==> HasNumber(fields[j])
  }

  /** Parameters that break a rule, as opposed to ones beyond what the verifier is willing to check. */
  ghost predicate Refuses(raw: Option<ParameterRecord>) {
    || raw.None?
    || (exists i: nat :: IsNotNumber(raw.value.fields, i))
    || (exists p: Parameters :: Lists(raw.value, p)
          && (!raw.value.exclude.Bool? || BreaksEarlyRule(p)
              || (p[7] <= 2048 && (!raw.value.exclude.b || !Rules(p)))))
  }

  /** A list within both caps of different lower-case ids in increasing order, none of them zero. */
  ghost predicate Offers(raw: Value, max: nat, ids: seq<Digest>) {
    && raw.Arr? && |raw.items| == |ids| && |ids| <= max && |ids| <= 65536
    && (forall i :: 0 <= i < |ids| ==>
          raw.items[i].Str? && SpellsLower(raw.items[i].s, ids[i]) && IsNonZero(ids[i]))
    && (forall i, j :: 0 <= i < j < |ids| ==> Earlier(ids[i], ids[j]))
  }

  predicate Differs(indexed: Option<nat>, named: nat) {
    indexed.Some? && indexed.value != named
  }

  /** The policy in force, when its index has caught up and it has a limit, differs from the one named. */
  predicate PolicyContradicts(policy: Option<Policy>, behind: bool, p: Parameters) {
    && !behind && policy.Some? && (policy.value.rateBps.Some? || policy.value.maxSelected.Some?)
    && (Differs(policy.value.version, p[1]) || Differs(policy.value.rateBps, p[2])
        || Differs(policy.value.maxSelected, p[3]))
  }

  // ---- the anchor ----

  predicate IsDigestLike(v: Value) {
    && v.Str? && |v.s| == 64
    && (forall i :: 0 <= i < 64 ==> HexValue(v.s[i]) >= 0 && !('A' <= v.s[i] <= 'F'))
    && exists i :: 0 <= i < 64 && v.s[i] != '0'
  }

  /** A memo of version 1 with exactly its five keys, for this slot and epoch, with two digests. */
  predicate IsMemoOf(m: MemoRecord, ctx: Context) {
    && m.exactKeys && m.v == Num(1.0)
    && ctx.slotId > 0 && IsNumber(m.slot, ctx.slotId) && IsNumber(m.epoch, ctx.epoch)
    && IsDigestLike(m.set_) && IsDigestLike(m.params)
  }

  ghost predicate CommitsParameters(hash: Hash, raw: Option<ParameterRecord>, v: Value) {
    forall p: Parameters :: Publishes(raw, p) ==> v.Str? && SpellsLower(v.s, hash(Params(p, true)))
  }

  ghost predicate CommitsCandidates(hash: Hash, input: Input, v: Value) {
    forall p: Parameters, ids ::
      Publishes(input.record.parameters, p) && Offers(input.record.candidates, p[5], ids) ==>
        v.Str? && SpellsLower(v.s, hash(CandidateSet(input.ctx, ids)))
  }

  /** The indexed anchor transaction does not commit to what the record publishes. */
  ghost predicate AnchorContradicts(hash: Hash, input: Input) {
    && input.anchor.Some?
    && !(&& input.anchor.value.memo.Some?
         && IsMemoOf(input.anchor.value.memo.value, input.ctx)
         && IsNumber(input.record.anchor.confirmedHeight, input.anchor.value.height)
         && CommitsParameters(hash, input.record.parameters, input.anchor.value.memo.value.params)
         && CommitsCandidates(hash, input, input.anchor.value.memo.value.set_))
  }

  // ---- the window ----

  /** The named window starts behind the confirmed height by the offset and has the committed length. */
  ghost predicate IsPlaced(r: Record, p: Parameters, start: nat, end: nat) {
    && r.beacon.Some?
    && IsNumber(r.beacon.value.startHeight, start) && IsNumber(r.beacon.value.endHeight, end)
    && exists confirmed: nat :: IsNumber(r.anchor.confirmedHeight, confirmed)
         && start == confirmed + p[6] && end == start + p[7] - 1
  }

  /** The last fetched row of a height. */
  predicate IsRowOf(blocks: seq<Block>, h: nat, i: int) {
    0 <= i < |blocks| && blocks[i].height == h && forall j :: i < j < |blocks| ==> blocks[j].height != h
  }

  /** The row of the height has this proposer slot and this hash. */
  ghost predicate Tells(blocks: seq<Block>, e: Entry) {
    exists i :: IsRowOf(blocks, e.height, i) && blocks[i].proposer == Some(e.slot)
      && blocks[i].hash.Some? && Spells(blocks[i].hash.value, e.hash)
  }

  ghost predicate IsKnown(blocks: seq<Block>, h: nat) {
    exists e: Entry :: e.height == h && Tells(blocks, e)
  }

  /** Every height of the window is known, and the entries are those of other slots, in height order. */
  ghost predicate IsWhole(blocks: seq<Block>, start: nat, end: nat, target: nat, entries: seq<Entry>) {
    && (forall h :: start <= h <= end ==> IsKnown(blocks, h))
    && (forall i, j :: 0 <= i < j < |entries| ==> entries[i].height < entries[j].height)
    && (forall e :: e in entries <==> start <= e.height <= end && e.slot != target && Tells(blocks, e))
  }

  // ---- the draw ----

  /** Ranking order: by ticket digest, then by id. */
  predicate Precedes(hash: Hash, ctx: Context, setHash: Digest, beaconHash: Digest, a: Digest, b: Digest) {
    var ticketA, ticketB := hash(Ticket(ctx, setHash, beaconHash, a)), hash(Ticket(ctx, setHash, beaconHash, b));
    Earlier(ticketA, ticketB) || (ticketA == ticketB && Earlier(a, b))
  }

  /** The winners are candidates in ranking order that precede every other candidate. */
  predicate AreDrawn(hash: Hash, ctx: Context, setHash: Digest, beaconHash: Digest, ids: seq<Digest>,
                     winners: seq<Digest>)
  {
    && (forall i, j :: 0 <= i < j < |winners| ==> Precedes(hash, ctx, setHash, beaconHash, winners[i], winners[j]))
    && (forall w :: w in winners ==> w in ids)
    && (forall w, id :: w in winners && id in ids && id !in winners ==>
          Precedes(hash, ctx, setHash, beaconHash, w, id))
  }

  /** The record lists these winners, in this order. */
  predicate ListsWinners(r: Record, winners: seq<Digest>) {
    if r.winners.Arr? then
      && |r.winners.items| == |winners|
      && forall i :: 0 <= i < |winners| ==> r.winners.items[i].Str? && SpellsLower(r.winners.items[i].s, winners[i])
    else winners == []
  }

  /** The record lists these winners, and their digest. */
  predicate NamesWinners(hash: Hash, ctx: Context, r: Record, winners: seq<Digest>) {
    ListsWinners(r, winners) && SaysDigest(r.selectedHash, hash(Selected(ctx, winners)))
  }

  /** Fewer than two candidates win without a beacon. */
  predicate ShortListFits(hash: Hash, ctx: Context, r: Record, ids: seq<Digest>) {
    && r.beacon.None?
    && r.outcome == Str(if |ids| == 0 then "NO_CANDIDATES" else "SUCCESS")
    && IsNumber(r.k, |ids|)
    && NamesWinners(hash, ctx, r, ids)
  }

  /** Enough blocks of other slots, by enough of them. */
  predicate IsAdmissible(p: Parameters, entries: seq<Entry>) {
    |entries| >= p[10] && |set e | e in entries :: e.slot| >= p[11]
  }

  /** The record counts the window as it is. */
  predicate CountsWindow(b: BeaconRecord, p: Parameters, entries: seq<Entry>) {
    && |entries| <= p[7]
    && IsNumber(b.usableBlocks, |entries|) && IsNumber(b.excludedTargetBlocks, p[7] - |entries|)
    && IsNumber(b.unattributableBlocks, 0) && IsNumber(b.distinctProposers, |set e | e in entries :: e.slot|)
    && b.admissible == Bool(IsAdmissible(p, entries))
  }

  function BeaconOf(hash: Hash, ctx: Context, ids: seq<Digest>, start: nat, end: nat, entries: seq<Entry>): Digest {
    hash(Beacon(ctx, hash(CandidateSet(ctx, ids)), start, end, entries))
  }

  /** The winners that follow from the window: the drawn ones of an admissible window, and none otherwise. */
  predicate AreWinners(hash: Hash, ctx: Context, p: Parameters, ids: seq<Digest>, start: nat, end: nat,
                       entries: seq<Entry>, winners: seq<Digest>)
  {
    if IsAdmissible(p, entries) then
      && |winners| == WinnersOf(|ids|, p[2], p[3], p[4])
      && AreDrawn(hash, ctx, hash(CandidateSet(ctx, ids)), BeaconOf(hash, ctx, ids, start, end, entries), ids, winners)
    else winners == []
  }

  /** The record counts the window as it is, and names the outcome, the number and the winners that follow. */
  ghost predicate DrawFits(hash: Hash, ctx: Context, r: Record, p: Parameters, ids: seq<Digest>, start: nat, end: nat,
                           entries: seq<Entry>, winners: seq<Digest>)
  {
    && r.beacon.Some? && CountsWindow(r.beacon.value, p, entries)
    && IsNumber(r.k, WinnersOf(|ids|, p[2], p[3], p[4]))
    && AreWinners(hash, ctx, p, ids, start, end, entries, winners)
    && NamesWinners(hash, ctx, r, winners)
    && if IsAdmissible(p, entries) then
         && SaysDigest(r.beacon.value.hash, BeaconOf(hash, ctx, ids, start, end, entries))
         && r.outcome == Str("SUCCESS")
       else r.beacon.value.hash == Null && r.outcome == Str("NO_VALID_BEACON")
  }

  // ---- contradiction ----

  /** The whole window is known, and no winners make the record follow from it. */
  ghost predicate DrawContradicts(hash: Hash, input: Input, p: Parameters, ids: seq<Digest>, start: nat, end: nat,
                                  entries: seq<Entry>)
  {
    && IsPlaced(input.record, p, start, end)
    && IsWhole(input.blocks, start, end, input.ctx.slotId, entries)
    && forall winners :: !DrawFits(hash, input.ctx, input.record, p, ids, start, end, entries, winners)
  }

  ghost predicate CandidatesContradict(hash: Hash, input: Input, p: Parameters, ids: seq<Digest>) {
    var setHash := hash(CandidateSet(input.ctx, ids));
    || !SaysDigest(input.record.candidateSetHash, setHash)
    || !SaysDigest(input.record.anchor.committedSetHash, setHash)
    || if |ids| < 2 then !ShortListFits(hash, input.ctx, input.record, ids)
       else
         || input.record.beacon.None?
         || exists start: nat, end: nat, entries :: DrawContradicts(hash, input, p, ids, start, end, entries)
  }

  ghost predicate ParametersContradict(hash: Hash, input: Input, p: Parameters) {
    || !SaysDigest(input.record.anchor.committedParamsHash, hash(Params(p, true)))
    || PolicyContradicts(input.policy, input.policyBehind, p)
    || (input.record.beacon.Some? && forall start: nat, end: nat :: !IsPlaced(input.record, p, start, end))
    || (forall ids :: !Offers(input.record.candidates, p[5], ids))
    || (exists ids :: Offers(input.record.candidates, p[5], ids) && CandidatesContradict(hash, input, p, ids))
  }

  /** The record says something that the chain data, or the record itself, refutes. */
  ghost predicate Contradicted(hash: Hash, input: Input) {
    && input.ctx.chainId != ""
    && (|| !IsShaped(input.ctx, input.record)
        || Refuses(input.record.parameters)
        || AnchorContradicts(hash, input)
        || exists p: Parameters :: Publishes(input.record.parameters, p) && ParametersContradict(hash, input, p))
  }

  /** Everything that is needed to decide is there: the chain id, the policy index, the anchor, parameters within the
      verifier's limits and, for a draw, every block of the window. */
  ghost predicate Decidable(input: Input) {
    && input.ctx.chainId != "" && !input.policyBehind && input.anchor.Some?
    && exists p: Parameters, ids :: IsDecidableWith(input, p, ids)
  }

  ghost predicate IsDecidableWith(input: Input, p: Parameters, ids: seq<Digest>) {
    && Publishes(input.record.parameters, p) && Offers(input.record.candidates, p[5], ids)
    && (|ids| >= 2 ==>
          exists start: nat, end: nat, entries ::
            IsPlaced(input.record, p, start, end) && IsWhole(input.blocks, start, end, input.ctx.slotId, entries))
  }
}
