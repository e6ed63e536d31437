/** The record an honest operator publishes, and that it is verified whenever the chain data is there. */
module DrawHonest {
  import opened Wrappers
  import opened Bytes
  import opened Decimal
  import opened Hex
  import opened Sorting
  import opened WinnerCount
  import opened DrawFraming
  import opened DrawRecord
  import opened DrawBeacon
  import opened DrawVerify
  import opened DrawSoundness

  // ---- what is published ----

  function PublishedNumber(n: nat): Value {
    Num(n as real)
  }

  function PublishedDigest(d: Digest): Value {
    Str(ToHex(d))
  }

  function PublishedIds(ids: seq<Digest>): (vs: seq<Value>)
    ensures |vs| == |ids|
  {
    seq(|ids|, i requires 0 <= i < |ids| => PublishedDigest(ids[i]))
  }

  /** A draw to be made: its place, parameters and candidates, and the height that anchored it. */
  datatype Task = Task(ctx: Context, p: Parameters, ids: seq<Digest>, anchored: nat)

  function WindowStart(t: Task): nat {
    t.anchored + StartOffset(t.p)
  }

  function WindowEnd(t: Task): nat
    requires WindowBlocks(t.p) > 0
  {
    WindowStart(t) + WindowBlocks(t.p) - 1
  }

  function WindowOf(t: Task, blocks: seq<Block>): Assessment
    requires WindowBlocks(t.p) > 0
  {
    Assess(ByHeight(blocks, WindowStart(t), WindowEnd(t)), WindowStart(t), WindowEnd(t), t.ctx.slotId)
  }

  function OutcomeOf(t: Task, a: Assessment): Outcome {
    if |t.ids| == 0 then NoCandidates
    else if |t.ids| == 1 || Admissible(t.p, a) then Success
    else NoValidBeacon
  }

  function BeaconHash(hash: Hash, t: Task, a: Assessment): Digest
    requires WindowBlocks(t.p) > 0
  {
    BeaconDigest(hash, t.ctx, SetDigest(hash, t.ctx, t.ids), WindowStart(t), WindowEnd(t), a)
  }

  function WinnersFor(hash: Hash, t: Task, a: Assessment): seq<Digest>
    requires WindowBlocks(t.p) > 0
  {
    if |t.ids| < 2 then t.ids
    else if Admissible(t.p, a) then
      Draw(hash, t.ctx, SetDigest(hash, t.ctx, t.ids), BeaconHash(hash, t, a), t.ids, ExpectedK(t.p, Success, |t.ids|))
    else []
  }

  function PublishedBeacon(hash: Hash, t: Task, a: Assessment): BeaconRecord
    requires WindowBlocks(t.p) > 0
  {
    BeaconRecord(PublishedNumber(WindowStart(t)), PublishedNumber(WindowEnd(t)), PublishedNumber(a.usable),
                 PublishedNumber(a.excludedTarget), PublishedNumber(0), PublishedNumber(a.distinct),
                 Bool(Admissible(t.p, a)), if Admissible(t.p, a) then PublishedDigest(BeaconHash(hash, t, a)) else Null)
  }

  function PublishedParameters(p: Parameters): ParameterRecord {
    ParameterRecord(seq(FIELD_COUNT, i requires 0 <= i < FIELD_COUNT => PublishedNumber(p[i])), Bool(true))
  }

  /** The record of the draw, with every digest, count and winner as they are. */
  function HonestRecord(hash: Hash, t: Task, blocks: seq<Block>): Record
    requires WindowBlocks(t.p) > 0
  {
    var a := WindowOf(t, blocks);
    var setHash, winners := SetDigest(hash, t.ctx, t.ids), WinnersFor(hash, t, a);
    Record(PublishedNumber(1), Str(t.ctx.chainId), PublishedNumber(t.ctx.slotId), PublishedNumber(t.ctx.epoch),
           Arr(PublishedIds(winners)), PublishedDigest(setHash), PublishedDigest(SelectedDigest(hash, t.ctx, winners)),
           Str(OutcomeText(OutcomeOf(t, a))), PublishedNumber(ExpectedK(t.p, OutcomeOf(t, a), |t.ids|)),
           Arr(PublishedIds(t.ids)), Some(PublishedParameters(t.p)),
           AnchorRecord(PublishedDigest(setHash), PublishedDigest(ParamsDigest(hash, t.p)),
                        PublishedNumber(t.anchored)),
           if |t.ids| < 2 then None else Some(PublishedBeacon(hash, t, a)))
  }

  /** The anchor transaction that committed to the draw. */
  function HonestAnchor(hash: Hash, t: Task): Anchor {
    Anchor(Some(MemoRecord(true, Num(1.0), PublishedNumber(t.ctx.slotId), PublishedNumber(t.ctx.epoch),
                           PublishedDigest(SetDigest(hash, t.ctx, t.ids)), PublishedDigest(ParamsDigest(hash, t.p)))),
           t.anchored)
  }

  function HonestInput(hash: Hash, t: Task, blocks: seq<Block>, policy: Option<Policy>, behind: bool): Input
    requires WindowBlocks(t.p) > 0
  {
    Input(t.ctx, HonestRecord(hash, t, blocks), Some(HonestAnchor(hash, t)), blocks, policy, behind)
  }

  /** Parameters within the rules, candidates in order and none of them zero, numbers of at most twelve digits,
      and digests that are not zero. */
  ghost predicate WellPosed(hash: Hash, t: Task) {
    && t.ctx.chainId != "" && 0 < t.ctx.slotId < PowerOfTen(MAX_UINT_DIGITS)
    && t.ctx.epoch < PowerOfTen(MAX_UINT_DIGITS)
    && Sound(t.p) && (forall i :: 0 <= i < FIELD_COUNT ==> t.p[i] < PowerOfTen(MAX_UINT_DIGITS))
    && |t.ids| <= MaxCandidates(t.p) && |t.ids| <= MAX_CANDIDATES && InOrder(t.ids)
    && (forall i :: 0 <= i < |t.ids| ==> t.ids[i] != ZERO)
    && t.anchored + StartOffset(t.p) + WindowBlocks(t.p) <= PowerOfTen(MAX_UINT_DIGITS)
    && SetDigest(hash, t.ctx, t.ids) != ZERO && ParamsDigest(hash, t.p) != ZERO
  }

  /** Every block of the window is indexed, with its hash and its proposer. */
  ghost predicate WindowIndexed(t: Task, blocks: seq<Block>)
    requires WindowBlocks(t.p) > 0
  {
    forall h :: WindowStart(t) <= h <= WindowEnd(t) ==>
      Complete(ByHeight(blocks, WindowStart(t), WindowEnd(t)), h)
  }

  // ---- published values read back ----

  lemma NumberReadsBack(n: nat)
    requires n < PowerOfTen(MAX_UINT_DIGITS)
    ensures ToBounded(PublishedNumber(n)) == Some(n)
  {
    assert PowerOfTen(6) == 1000000;
    assert PowerOfTen(12) == 1000000000000;
    assert (n as real).Floor == n;
    DecimalLength(n, MAX_UINT_DIGITS);
    ValueOfDecimal(n);
  }

  lemma SmallNumberReadsBack(n: nat)
    requires n <= MAX_CANDIDATES
    ensures ToBounded(PublishedNumber(n)) == Some(n)
  {
    assert PowerOfTen(6) == 1000000;
    assert PowerOfTen(12) == 1000000000000;
    NumberReadsBack(n);
  }

  lemma LowerHexStays(s: string)
    requires AllLowerHex(s)
    ensures ToLower(s) == s
  {
    forall i | 0 <= i < |s|
      ensures LowerChar(s[i]) == s[i]
    {
      assert IsLowerHexDigit(s[i]);
    }
  }

  lemma DigestReadsBack(d: Digest)
    ensures HexEq(d, PublishedDigest(d))
  {
    LowerHexStays(ToHex(d));
  }

  lemma ZerosInHex(n: nat, i: nat)
    requires i < n
    ensures Zeros(n)[i] == 0
  {
  }

  /** A digest is zero when its text is all zeros. */
  lemma ZeroText(d: Digest)
    requires forall i :: 0 <= i < 64 ==> ToHex(d)[i] == '0'
    ensures d == ZERO
  {
    forall i | 0 <= i < 32
      ensures d[i] == ZERO[i]
    {
      ZerosInHex(32, i);
      PairOfZeros(d, i);
    }
  }

  lemma PairOfZeros(d: Digest, i: nat)
    requires i < 32 && ToHex(d)[2 * i] == '0' && ToHex(d)[2 * i + 1] == '0'
    ensures d[i] == 0
  {
    assert (2 * i) % 2 == 0 && (2 * i) / 2 == i && (2 * i + 1) % 2 == 1 && (2 * i + 1) / 2 == i;
    assert ToHex(d)[2 * i] == Hex.Digit(d[i] / 16) && ToHex(d)[2 * i + 1] == Hex.Digit(d[i] % 16);
  }

  lemma DigestTextIsAccepted(d: Digest)
    requires d != ZERO
    ensures IsDigestText(PublishedDigest(d))
  {
    if forall i :: 0 <= i < 64 ==> ToHex(d)[i] == '0' {
      ZeroText(d);
    }
  }

  lemma {:induction false} WinnersReadBack(ids: seq<Digest>)
    ensures StringsOf(PublishedIds(ids)) == HexList(ids)
  {
    if ids == [] {
      assert StringsOf(PublishedIds(ids)) == [];
    } else {
      var n := |ids| - 1;
      WinnersReadBack(ids[..n]);
      assert PublishedIds(ids)[..n] == PublishedIds(ids[..n]);
      assert HexList(ids) == HexList(ids[..n]) + [ToHex(ids[n])];
    }
  }

  // ---- the honest input is confirmed ----

  lemma FoundationIsConfirmed(hash: Hash, t: Task, blocks: seq<Block>, policy: Option<Policy>, behind: bool)
    requires WellPosed(hash, t) && PolicyConfirms(policy, behind, t.p)
    ensures FoundationConfirms(hash, HonestInput(hash, t, blocks, policy, behind), t.p, t.ids)
  {
    ParametersAreConfirmed(t.p);
    HonestShape(hash, t, blocks);
    AnchorIsConfirmed(hash, t, blocks, policy, behind);
    DigestReadsBack(ParamsDigest(hash, t.p));
    DigestReadsBack(SetDigest(hash, t.ctx, t.ids));
  }

  lemma ParametersAreConfirmed(p: Parameters)
    requires Sound(p) && forall i :: 0 <= i < FIELD_COUNT ==> p[i] < PowerOfTen(MAX_UINT_DIGITS)
    ensures ParametersPublished(Some(PublishedParameters(p)), p)
  {
    forall i | 0 <= i < FIELD_COUNT
      ensures ToBounded(PublishedParameters(p).fields[i]) == Some(p[i])
    {
      NumberReadsBack(p[i]);
    }
  }

  lemma HonestShape(hash: Hash, t: Task, blocks: seq<Block>)
    requires WellPosed(hash, t)
    ensures ShapeOk(t.ctx, HonestRecord(hash, t, blocks))
  {
    SmallNumberReadsBack(1);
    NumberReadsBack(t.ctx.slotId);
    NumberReadsBack(t.ctx.epoch);
  }

  lemma AnchorIsConfirmed(hash: Hash, t: Task, blocks: seq<Block>, policy: Option<Policy>, behind: bool)
    requires WellPosed(hash, t)
    ensures AnchorConfirms(hash, HonestInput(hash, t, blocks, policy, behind), t.p, t.ids)
  {
    NumberReadsBack(t.ctx.slotId);
    NumberReadsBack(t.ctx.epoch);
    NumberReadsBack(t.anchored);
    DigestTextIsAccepted(SetDigest(hash, t.ctx, t.ids));
    DigestTextIsAccepted(ParamsDigest(hash, t.p));
  }

  lemma SlotsAreFew(entries: seq<Entry>)
    ensures |Slots(entries)| <= |entries|
  {
    if entries == [] {
      assert Slots(entries) == {};
    } else {
      var n := |entries| - 1;
      SlotsAreFew(entries[..n]);
      assert entries == entries[..n] + [entries[n]];
      assert Slots(entries) == Slots(entries[..n]) + {entries[n].slot};
    }
  }

  /** The counts of a window with nothing missing, as published. */
  lemma CountsReadBack(hash: Hash, t: Task, blocks: seq<Block>)
    requires WellPosed(hash, t) && WindowIndexed(t, blocks)
    ensures var a := WindowOf(t, blocks);
            && a.missing == 0 && a.usable == |a.entries| && a.distinct == |Slots(a.entries)|
            && a.usable + a.excludedTarget == WindowBlocks(t.p)
            && CountsOk(t.p, PublishedBeacon(hash, t, a), a)
  {
    var a := WindowOf(t, blocks);
    NothingMissingExactly(ByHeight(blocks, WindowStart(t), WindowEnd(t)), WindowStart(t), WindowEnd(t), t.ctx.slotId);
    SlotsAreFew(a.entries);
    SmallNumberReadsBack(a.usable);
    SmallNumberReadsBack(a.excludedTarget);
    SmallNumberReadsBack(0);
    SmallNumberReadsBack(a.distinct);
  }

  lemma OutcomeReadsBack(hash: Hash, t: Task, blocks: seq<Block>)
    requires WellPosed(hash, t)
    ensures var a := WindowOf(t, blocks);
            OutcomeIs(HonestRecord(hash, t, blocks), OutcomeOf(t, a), ExpectedK(t.p, OutcomeOf(t, a), |t.ids|))
  {
    if |t.ids| >= 2 {
      WinnersAreBounded(|t.ids|, RateBps(t.p), MaxSelected(t.p), MaxPerSelection(t.p));
    }
    SmallNumberReadsBack(ExpectedK(t.p, OutcomeOf(t, WindowOf(t, blocks)), |t.ids|));
  }

  lemma DrawIsConfirmed(hash: Hash, t: Task, blocks: seq<Block>)
    requires WellPosed(hash, t) && |t.ids| >= 2 && WindowIndexed(t, blocks)
    ensures var a := WindowOf(t, blocks);
            DrawFollows(hash, t.ctx, HonestRecord(hash, t, blocks), PublishedBeacon(hash, t, a), t.p,
                        SetDigest(hash, t.ctx, t.ids), t.ids, WindowStart(t), WindowEnd(t), a.entries,
                        WinnersFor(hash, t, a))
  {
    var a, k := WindowOf(t, blocks), ExpectedK(t.p, Success, |t.ids|);
    var b, setHash := PublishedBeacon(hash, t, a), SetDigest(hash, t.ctx, t.ids);
    CountsReadBack(hash, t, blocks);
    OutcomeReadsBack(hash, t, blocks);
    DigestReadsBack(BeaconHash(hash, t, a));
    WinnersAreBounded(|t.ids|, RateBps(t.p), MaxSelected(t.p), MaxPerSelection(t.p));
    if Admissible(t.p, a) {
      DrawIsLeast(hash, t.ctx, setHash, BeaconHash(hash, t, a), t.ids, k);
    }
  }

  lemma EntriesAreTheWindows(t: Task, blocks: seq<Block>)
    requires WindowBlocks(t.p) > 0 && WindowIndexed(t, blocks)
    ensures IsWindow(ByHeight(blocks, WindowStart(t), WindowEnd(t)), WindowStart(t), WindowEnd(t), t.ctx.slotId,
                     WindowOf(t, blocks).entries)
  {
    var start, end := WindowStart(t), WindowEnd(t);
    var view := ByHeight(blocks, start, end);
    ByHeightExactly(blocks, start, end);
    NothingMissingExactly(view, start, end, t.ctx.slotId);
    WindowExactly(view, start, end, t.ctx.slotId, WindowOf(t, blocks).entries);
  }

  lemma PlacementReadsBack(hash: Hash, t: Task, a: Assessment)
    requires WellPosed(hash, t)
    ensures var b := PublishedBeacon(hash, t, a);
            ToBounded(b.startHeight) == Some(WindowStart(t)) && ToBounded(b.endHeight) == Some(WindowEnd(t))
  {
    NumberReadsBack(WindowStart(t));
    NumberReadsBack(WindowEnd(t));
  }

  lemma WindowIsConfirmed(hash: Hash, t: Task, blocks: seq<Block>, input: Input, a: Assessment)
    requires WellPosed(hash, t) && |t.ids| >= 2 && WindowIndexed(t, blocks) && a == WindowOf(t, blocks)
    requires input.ctx == t.ctx && input.blocks == blocks && input.record == HonestRecord(hash, t, blocks)
    requires input.anchor.Some? && input.anchor.value.height == t.anchored
    ensures BeaconConfirms(hash, input, t.p, t.ids, a.entries, WinnersFor(hash, t, a))
  {
    DrawIsConfirmed(hash, t, blocks);
    EntriesAreTheWindows(t, blocks);
    PlacementReadsBack(hash, t, a);
    PlacedConfirms(hash, input, t.p, t.ids, PublishedBeacon(hash, t, a), WindowStart(t), WindowEnd(t), a.entries,
                   WinnersFor(hash, t, a));
  }

  function EntriesOf(t: Task, a: Assessment): seq<Entry> {
    if |t.ids| < 2 then [] else a.entries
  }

  lemma NoDrawIsConfirmed(hash: Hash, t: Task, blocks: seq<Block>, input: Input)
    requires WellPosed(hash, t) && |t.ids| < 2 && input.record == HonestRecord(hash, t, blocks)
    ensures NoDrawNeeded(input, t.ids, [], t.ids)
  {
    OutcomeReadsBack(hash, t, blocks);
  }

  lemma HonestDrawIsConfirmed(hash: Hash, t: Task, blocks: seq<Block>, input: Input, a: Assessment)
    requires WellPosed(hash, t) && (|t.ids| >= 2 ==> WindowIndexed(t, blocks)) && a == WindowOf(t, blocks)
    requires input.ctx == t.ctx && input.blocks == blocks && input.record == HonestRecord(hash, t, blocks)
    requires input.anchor.Some? && input.anchor.value.height == t.anchored
    ensures DrawConfirms(hash, input, t.p, t.ids, EntriesOf(t, a), WinnersFor(hash, t, a))
  {
    if |t.ids| < 2 {
      NoDrawIsConfirmed(hash, t, blocks, input);
    } else {
      WindowIsConfirmed(hash, t, blocks, input, a);
    }
  }

  lemma HonestIsConfirmed(hash: Hash, t: Task, blocks: seq<Block>, policy: Option<Policy>, behind: bool)
    requires WellPosed(hash, t) && PolicyConfirms(policy, behind, t.p)
    requires |t.ids| >= 2 ==> WindowIndexed(t, blocks)
    ensures var a := WindowOf(t, blocks);
            Confirms(hash, HonestInput(hash, t, blocks, policy, behind), t.p, t.ids, EntriesOf(t, a),
                     WinnersFor(hash, t, a))
  {
    var input, a := HonestInput(hash, t, blocks, policy, behind), WindowOf(t, blocks);
    FoundationIsConfirmed(hash, t, blocks, policy, behind);
    HonestDrawIsConfirmed(hash, t, blocks, input, a);
    WinnersReadBack(WinnersFor(hash, t, a));
    DigestReadsBack(SelectedDigest(hash, t.ctx, WinnersFor(hash, t, a)));
  }

  // ---- the theorem ----

  /** The record publishes one set of parameters and candidates. */
  lemma SamePublished(hash: Hash, t: Task, input: Input, p: Parameters, ids: seq<Digest>)
    requires WellPosed(hash, t) && FoundationConfirms(hash, input, p, ids)
    requires input.record.parameters == Some(PublishedParameters(t.p))
             && input.record.candidates == Arr(PublishedIds(t.ids))
    ensures p == t.p && ids == t.ids
  {
    ParametersAreConfirmed(t.p);
    assert forall i :: 0 <= i < FIELD_COUNT ==> p[i] == t.p[i];
    forall i | 0 <= i < |ids|
      ensures ids[i] == t.ids[i]
    {
      assert input.record.candidates.items[i] == Str(ToHex(ids[i]));
      HexIsInjective(ids[i], t.ids[i]);
    }
  }

  lemma ConfirmedWindowIsIndexed(hash: Hash, t: Task, input: Input, entries: seq<Entry>, winners: seq<Digest>)
    requires WindowBlocks(t.p) > 0 && input.anchor.Some? && input.anchor.value.height == t.anchored
    requires BeaconConfirms(hash, input, t.p, t.ids, entries, winners)
    ensures WindowIndexed(t, input.blocks)
  {
    var start, end := WindowStart(t), WindowEnd(t);
    assert IsWindow(ByHeight(input.blocks, start, end), start, end, input.ctx.slotId, entries);
  }

  lemma VerifiedNeedsData(hash: Hash, t: Task, input: Input, p: Parameters, ids: seq<Digest>, entries: seq<Entry>,
                          winners: seq<Digest>)
    requires WellPosed(hash, t) && input.anchor.Some? && input.anchor.value.height == t.anchored
    requires input.record.parameters == Some(PublishedParameters(t.p))
             && input.record.candidates == Arr(PublishedIds(t.ids))
    requires FoundationConfirms(hash, input, p, ids) && DrawConfirms(hash, input, p, ids, entries, winners)
    ensures PolicyConfirms(input.policy, input.policyBehind, t.p)
    ensures |t.ids| >= 2 ==> WindowIndexed(t, input.blocks)
  {
    SamePublished(hash, t, input, p, ids);
    if |t.ids| >= 2 {
      ConfirmedWindowIsIndexed(hash, t, input, entries, winners);
    }
  }

  /** An honest operator's record is verified if and only if the policy index has caught up and agrees and, when
      a draw is needed, every block of the window is indexed with its hash and proposer. */
  lemma HonestIsVerifiedExactly(hash: Hash, t: Task, blocks: seq<Block>, policy: Option<Policy>, behind: bool)
    requires WellPosed(hash, t)
    ensures Verify(hash, HonestInput(hash, t, blocks, policy, behind)) == Verified <==>
            PolicyConfirms(policy, behind, t.p) && (|t.ids| >= 2 ==> WindowIndexed(t, blocks))
  {
    var input, a := HonestInput(hash, t, blocks, policy, behind), WindowOf(t, blocks);
    if PolicyConfirms(policy, behind, t.p) && (|t.ids| >= 2 ==> WindowIndexed(t, blocks)) {
      HonestIsConfirmed(hash, t, blocks, policy, behind);
      ConfirmedIsVerified(hash, input, t.p, t.ids, EntriesOf(t, a), WinnersFor(hash, t, a));
    }
    if Verify(hash, input) == Verified {
      VerifiedIsConfirmed(hash, input);
      var p: Parameters, ids, entries, winners :| Confirms(hash, input, p, ids, entries, winners);
      VerifiedNeedsData(hash, t, input, p, ids, entries, winners);
    }
  }
}
