/** Missing chain data never turns a confirmed draw into a contradicted one. */
module DrawDegradation {
  import opened Wrappers
  import opened Hex
  import opened Sorting
  import opened DrawFraming
  import opened DrawRecord
  import opened DrawBeacon
  import opened DrawVerify
  import opened DrawSoundness

  // ---- withholding ----

  ghost predicate WeakerField<T>(less: Option<T>, more: Option<T>) {
    less.None? || less == more
  }

  ghost predicate WeakerBlock(less: Block, more: Block) {
    less.height == more.height && WeakerField(less.hash, more.hash) && WeakerField(less.proposer, more.proposer)
  }

  ghost predicate WeakerView(less: map<nat, Block>, more: map<nat, Block>) {
    forall h :: h in less ==> h in more && WeakerBlock(less[h], more[h])
  }

  ghost predicate WeakerPolicy(less: Option<Policy>, more: Option<Policy>) {
    less.Some? ==>
      && more.Some?
      && WeakerField(less.value.version, more.value.version)
      && WeakerField(less.value.rateBps, more.value.rateBps)
      && WeakerField(less.value.maxSelected, more.value.maxSelected)
  }

  /** The same record against less chain data: blocks, hashes, attributions, the anchor transaction, the
      policy, the progress of its index or the chain id may be unknown. */
  ghost predicate Withholds(less: Input, more: Input) {
    && less.record == more.record
    && (less.ctx == more.ctx || less.ctx.chainId == "")
    && (less.anchor == more.anchor || less.anchor.None?)
    && WeakerPolicy(less.policy, more.policy)
    && forall start: nat, end: nat :: WeakerView(ByHeight(less.blocks, start, end), ByHeight(more.blocks, start, end))
  }

  ghost predicate UniqueHeights(blocks: seq<Block>) {
    forall i, j :: 0 <= i < j < |blocks| ==> blocks[i].height != blocks[j].height
  }

  lemma {:induction false} RowIsListed(blocks: seq<Block>, start: nat, end: nat, h: nat)
    requires h in ByHeight(blocks, start, end)
    ensures exists i :: 0 <= i < |blocks| && blocks[i] == ByHeight(blocks, start, end)[h] && blocks[i].height == h
    ensures start <= h <= end
  {
    var n := |blocks| - 1;
    if !(start <= blocks[n].height <= end && blocks[n].height == h) {
      RowIsListed(blocks[..n], start, end, h);
      var i :| 0 <= i < n && blocks[..n][i] == ByHeight(blocks[..n], start, end)[h] && blocks[..n][i].height == h;
      assert blocks[i] == ByHeight(blocks, start, end)[h];
    }
  }

  lemma {:induction false} UniqueRowIsFound(blocks: seq<Block>, start: nat, end: nat, i: nat)
    requires UniqueHeights(blocks) && i < |blocks| && start <= blocks[i].height <= end
    ensures blocks[i].height in ByHeight(blocks, start, end)
    ensures ByHeight(blocks, start, end)[blocks[i].height] == blocks[i]
  {
    var n := |blocks| - 1;
    if i < n {
      assert blocks[..n][i] == blocks[i];
      UniqueRowIsFound(blocks[..n], start, end, i);
    }
  }

  /** When heights are unique, dropping rows, hashes and attributions in any way only weakens the view. */
  lemma DroppingRowsWeakens(less: seq<Block>, more: seq<Block>, start: nat, end: nat)
    requires UniqueHeights(more)
    requires forall i :: 0 <= i < |less| ==> exists j :: 0 <= j < |more| && WeakerBlock(less[i], more[j])
    ensures WeakerView(ByHeight(less, start, end), ByHeight(more, start, end))
  {
    forall h | h in ByHeight(less, start, end)
      ensures h in ByHeight(more, start, end)
      ensures WeakerBlock(ByHeight(less, start, end)[h], ByHeight(more, start, end)[h])
    {
      RowIsListed(less, start, end, h);
      var i :| 0 <= i < |less| && less[i] == ByHeight(less, start, end)[h] && less[i].height == h;
      var j :| 0 <= j < |more| && WeakerBlock(less[i], more[j]);
      UniqueRowIsFound(more, start, end, j);
    }
  }

  // ---- no check is contradicted ----

  lemma NoFailsConcat(a: seq<Check>, b: seq<Check>)
    requires !AnyFails(a) && !AnyFails(b)
    ensures !AnyFails(a + b)
  {
  }

  lemma NoneFails(c: Check)
    requires c.ok != Fails
    ensures !AnyFails([c])
  {
  }

  lemma WeakerPolicyNeverFails(less: Option<Policy>, behind: bool, more: Option<Policy>, p: Parameters)
    requires WeakerPolicy(less, more) && PolicyConfirms(more, false, p)
    ensures !AnyFails(PolicyChecks(less, behind, p))
  {
    var checks := PolicyChecks(less, behind, p);
    if checks != [] {
      NoneFails(checks[0]);
    }
  }

  lemma SameOrUnknown(hash: Hash, less: Input, more: Input)
    requires WellTyped(more) && less.record == more.record && less.ctx == more.ctx
    ensures WellTyped(less)
    ensures ParsedOf(less) == ParsedOf(more) && IdsOfRecord(less) == IdsOfRecord(more)
    ensures SetHashOf(hash, less) == SetHashOf(hash, more) && ParamsHashOf(hash, less) == ParamsHashOf(hash, more)
  {
  }

  lemma FoundationNeverFails(hash: Hash, less: Input, more: Input)
    requires WellTyped(more) && Withholds(less, more) && less.ctx == more.ctx && AllHold(Foundation(hash, more))
    ensures WellTyped(less) && !AnyFails(Foundation(hash, less))
  {
    FoundationParts(hash, more);
    SameOrUnknown(hash, less, more);
    var r, p, confirmed := less.record, ParsedOf(less).params, ToBounded(less.record.anchor.confirmedHeight);
    var answer := AnchorAnswer(less.anchor, less.ctx, SetHashOf(hash, less), ParamsHashOf(hash, less), confirmed);
    var shape, anchor := [Check(RecordShape, Of(ShapeOk(less.ctx, r)))], [Check(AnchorCommitment, answer)];
    var parameters := ParameterChecks(ParsedOf(less), ParamsHashOk(ParamsHashOf(hash, less), r));
    var policy := PolicyChecks(less.policy, less.policyBehind, p);
    var candidates := CandidateChecks(true, true, SetHashOk(SetHashOf(hash, less), r));
    WeakerPolicyNeverFails(less.policy, less.policyBehind, more.policy, p);
    NoneFails(shape[0]);
    NoneFails(anchor[0]);
    NoFailsConcat(shape, parameters);
    NoFailsConcat(shape + parameters, policy);
    NoFailsConcat(shape + parameters + policy, candidates);
    NoFailsConcat(shape + parameters + policy + candidates, anchor);
    NoFailsConcat(shape + parameters + policy + candidates + anchor, WindowChecks(p, r.beacon, confirmed));
  }

  /** With less data a window is either assessed the same, or has something missing. */
  lemma SameOrMissing(less: map<nat, Block>, more: map<nat, Block>, start: nat, end: nat, target: nat)
    requires start <= end && WeakerView(less, more) && RowsKnowTheirHeight(less) && RowsKnowTheirHeight(more)
    ensures Assess(less, start, end, target).missing > 0
            || Assess(less, start, end, target) == Assess(more, start, end, target)
  {
    var a, a' := Assess(less, start, end, target), Assess(more, start, end, target);
    NothingMissingExactly(less, start, end, target);
    NothingMissingExactly(more, start, end, target);
    if a.missing == 0 {
      forall h | start <= h <= end
        ensures Complete(less, h) && Complete(more, h) && EntryOf(less[h]) == EntryOf(more[h])
      {
        assert Complete(less, h);
      }
      EntriesExactly(less, start, end, target);
      EntriesExactly(more, start, end, target);
      EarlierEntryIsStrict();
      IncreasingDetermines(a.entries, a'.entries, EarlierEntry);
    }
  }

  lemma UnknownBeaconNeverFails(hash: Hash, input: Input, p: Parameters, ids: seq<Digest>)
    requires Derive(hash, input, p, ids) == Derivation([Check(BeaconRecomputed, Unknown)], None, None)
    ensures !AnyFails(Rederivation(hash, input, p, ids))
  {
    var d := Derive(hash, input, p, ids);
    var outcome := OutcomeChecks(input.record.outcome, d, WindowFailed(p, input.record));
    NoneFails(d.checks[0]);
    assert !AnyFails(outcome);
    NoFailsConcat(d.checks, outcome);
    NoFailsConcat(d.checks + outcome, []);
  }

  /** With less data the derivation is the same, or the beacon could not be recomputed. */
  lemma DerivesSameOrUnknown(hash: Hash, less: Input, more: Input, p: Parameters, ids: seq<Digest>)
    requires Withholds(less, more) && less.ctx == more.ctx
    ensures Derive(hash, less, p, ids) == Derive(hash, more, p, ids)
            || Derive(hash, less, p, ids) == Derivation([Check(BeaconRecomputed, Unknown)], None, None)
  {
    if |ids| >= 2 && less.record.beacon.Some? && !WindowFailed(p, less.record) {
      var b := less.record.beacon.value;
      var start, end := ToBounded(b.startHeight).value, ToBounded(b.endHeight).value;
      ByHeightExactly(less.blocks, start, end);
      ByHeightExactly(more.blocks, start, end);
      SameOrMissing(ByHeight(less.blocks, start, end), ByHeight(more.blocks, start, end), start, end, less.ctx.slotId);
      DeriveIsJudge(hash, less, p, ids, b, start, end);
      DeriveIsJudge(hash, more, p, ids, b, start, end);
    }
  }

  lemma RederivationNeverFails(hash: Hash, less: Input, more: Input, p: Parameters, ids: seq<Digest>)
    requires Withholds(less, more) && less.ctx == more.ctx && AllHold(Rederivation(hash, more, p, ids))
    ensures !AnyFails(Rederivation(hash, less, p, ids))
  {
    DerivesSameOrUnknown(hash, less, more, p, ids);
    if Derive(hash, less, p, ids) == Derive(hash, more, p, ids) {
      assert Rederivation(hash, less, p, ids) == Rederivation(hash, more, p, ids);
      AllHoldMeansNotBroken(Rederivation(hash, more, p, ids));
    } else {
      UnknownBeaconNeverFails(hash, less, p, ids);
    }
  }

  /** Withholding chain data from a verified draw leaves it verified or makes it unverifiable. */
  lemma WithholdingNeverContradicts(hash: Hash, less: Input, more: Input)
    requires WellTyped(more) && Verify(hash, more) == Verified && Withholds(less, more)
    ensures WellTyped(less) && Verify(hash, less) != Mismatch
  {
    VerifiedMeansAllHold(hash, more);
    if less.ctx.chainId == "" {
      NoneFails(Check(ContextAvailable, Unknown));
    } else {
      SameOrUnknown(hash, less, more);
      FoundationNeverFails(hash, less, more);
      var p, ids := ParsedOf(less).params, IdsOfRecord(less).value;
      RederivationNeverFails(hash, less, more, p, ids);
      NoFailsConcat(Foundation(hash, less), Rederivation(hash, less, p, ids));
    }
  }

  /** The anchor is withheld whole or not at all: an indexed transaction without its memo reads as a
      contradiction, even of a draw that is otherwise verified. */
  lemma MissingMemoContradicts(hash: Hash, input: Input)
    requires WellTyped(input) && Verify(hash, input) == Verified
    ensures input.anchor.Some?
    ensures var stripped := input.(anchor := Some(Anchor(None, input.anchor.value.height)));
            WellTyped(stripped) && Verify(hash, stripped) == Mismatch
  {
    VerifiedMeansAllHold(hash, input);
    FoundationParts(hash, input);
    var stripped := input.(anchor := Some(Anchor(None, input.anchor.value.height)));
    var checks := Foundation(hash, stripped);
    assert Check(AnchorCommitment, Fails) in checks;
    var i :| 0 <= i < |checks| && checks[i] == Check(AnchorCommitment, Fails);
    assert Broken(checks) && AnyFails(checks);
  }
}
