/** What an anchored commitment fixes, and that everything the verifier hashes is within the ranges its
    byte framing accepts. */
module DrawBinding {
  import opened Wrappers
  import opened Bytes
  import opened Decimal
  import opened Hex
  import opened Sorting
  import opened WinnerCount
  import opened DrawFraming
  import opened DrawRecord
  import opened DrawBeacon
  import opened DrawVerify
  import opened DrawSoundness

  /** The window of a confirmed beacon, right behind the anchor. */
  lemma ConfirmedWindow(hash: Hash, input: Input, p: Parameters, ids: seq<Digest>, entries: seq<Entry>,
                        winners: seq<Digest>, start: nat, end: nat)
    requires BeaconConfirms(hash, input, p, ids, entries, winners)
    requires start == input.anchor.value.height + StartOffset(p) && end == start + WindowBlocks(p) - 1
    ensures input.record.beacon.Some?
    ensures ToBounded(input.record.beacon.value.startHeight) == Some(start)
    ensures ToBounded(input.record.beacon.value.endHeight) == Some(end)
    ensures WindowConfirms(hash, input, p, ids, input.record.beacon.value, start, end, entries, winners)
  {
  }

  /** The winners of a confirmed draw are determined by its parameters, candidates and chain data: no two
      records for one anchor and one set of blocks can have different winners confirmed. */
  lemma WinnersAreDetermined(hash: Hash, a: Input, b: Input, p: Parameters, ids: seq<Digest>,
                             entries: seq<Entry>, entries': seq<Entry>, winners: seq<Digest>, winners': seq<Digest>)
    requires a.ctx == b.ctx && a.anchor == b.anchor && a.blocks == b.blocks
    requires Sound(p) && InOrder(ids)
    requires DrawConfirms(hash, a, p, ids, entries, winners) && DrawConfirms(hash, b, p, ids, entries', winners')
    ensures entries == entries' && winners == winners'
  {
    if |ids| >= 2 {
      var start := a.anchor.value.height + StartOffset(p);
      var end := start + WindowBlocks(p) - 1;
      ConfirmedWindow(hash, a, p, ids, entries, winners, start, end);
      ConfirmedWindow(hash, b, p, ids, entries', winners', start, end);
      WindowDetermines(hash, a, b, p, ids, start, end, entries, entries', winners, winners');
    }
  }

  lemma WindowDetermines(hash: Hash, a: Input, b: Input, p: Parameters, ids: seq<Digest>, start: nat, end: nat,
                         entries: seq<Entry>, entries': seq<Entry>, winners: seq<Digest>, winners': seq<Digest>)
    requires |ids| >= 2 && InOrder(ids) && Sound(p) && start <= end
    requires a.ctx == b.ctx && a.blocks == b.blocks && a.record.beacon.Some? && b.record.beacon.Some?
    requires WindowConfirms(hash, a, p, ids, a.record.beacon.value, start, end, entries, winners)
    requires WindowConfirms(hash, b, p, ids, b.record.beacon.value, start, end, entries', winners')
    ensures entries == entries' && winners == winners'
  {
    var view := ByHeight(a.blocks, start, end);
    ByHeightExactly(a.blocks, start, end);
    WindowExactly(view, start, end, a.ctx.slotId, entries);
    WindowExactly(view, start, end, a.ctx.slotId, entries');
    FollowingWinnersAreDetermined(hash, a.ctx, a.record, b.record, a.record.beacon.value, b.record.beacon.value, p, ids,
                                  start, end, entries, winners, winners');
  }

  lemma FollowingWinnersAreDetermined(hash: Hash, ctx: Context, r: Record, r': Record, b: BeaconRecord,
                                      b': BeaconRecord,
                                      p: Parameters, ids: seq<Digest>, start: nat, end: nat,
                                      entries: seq<Entry>, winners: seq<Digest>, winners': seq<Digest>)
    requires |ids| >= 2 && InOrder(ids) && Sound(p)
    requires DrawFollows(hash, ctx, r, b, p, SetDigest(hash, ctx, ids), ids, start, end, entries, winners)
    requires DrawFollows(hash, ctx, r', b', p, SetDigest(hash, ctx, ids), ids, start, end, entries, winners')
    ensures winners == winners'
  {
    var setHash, k := SetDigest(hash, ctx, ids), WinnersOf(|ids|, RateBps(p), MaxSelected(p), MaxPerSelection(p));
    WinnersAreBounded(|ids|, RateBps(p), MaxSelected(p), MaxPerSelection(p));
    DrawExactly(hash, ctx, setHash, hash(Beacon(ctx, setHash, start, end, entries)), ids, k, winners);
    DrawExactly(hash, ctx, setHash, hash(Beacon(ctx, setHash, start, end, entries)), ids, k, winners');
  }

  // ---- the hashed inputs are framed ----

  lemma PublishedParametersAreFramed(raw: Option<ParameterRecord>, p: Parameters)
    requires ParametersPublished(raw, p)
    ensures Framed(Params(p, true))
  {
    forall i | 0 <= i < |p|
      ensures p[i] < PowerOfTen(MAX_UINT_DIGITS)
    {
      assert ToBounded(raw.value.fields[i]) == Some(p[i]);
      BoundedBelow(raw.value.fields[i]);
    }
  }

  lemma TwelveDigitsFit(n: nat)
    requires n < PowerOfTen(MAX_UINT_DIGITS)
    ensures FitsU64(n)
  {
    assert PowerOfTen(6) == 1000000;
    assert PowerOfTen(12) == 1000000000000;
    assert Range(4) == 0x1_0000_0000;
    assert Range(8) == 0x1_0000_0000_0000_0000;
  }

  lemma SmallNumbersFit(n: nat)
    requires n <= 65536
    ensures FitsU64(n)
  {
    assert PowerOfTen(6) == 1000000;
    assert PowerOfTen(12) == 1000000000000;
    TwelveDigitsFit(n);
  }

  ghost predicate SlotsFit(blocks: seq<Block>) {
    forall i :: 0 <= i < |blocks| && blocks[i].proposer.Some? ==> FitsU64(blocks[i].proposer.value)
  }

  lemma {:induction false} ViewSlotsFit(blocks: seq<Block>, start: nat, end: nat)
    requires SlotsFit(blocks)
    ensures forall h :: h in ByHeight(blocks, start, end) && ByHeight(blocks, start, end)[h].proposer.Some? ==>
              FitsU64(ByHeight(blocks, start, end)[h].proposer.value)
  {
    if blocks != [] {
      ViewSlotsFit(blocks[..|blocks| - 1], start, end);
    }
  }

  lemma IdListsAreFramed(ctx: Context, ids: seq<Digest>)
    requires FramedContext(ctx) && |ids| <= MAX_CANDIDATES
    ensures Framed(CandidateSet(ctx, ids)) && Framed(Selected(ctx, ids))
  {
    SmallNumbersFit(|ids|);
  }

  lemma WindowIsFramed(hash: Hash, input: Input, p: Parameters, ids: seq<Digest>, b: BeaconRecord,
                       start: nat, end: nat, entries: seq<Entry>, winners: seq<Digest>)
    requires FramedContext(input.ctx) && SlotsFit(input.blocks) && Sound(p)
    requires ToBounded(b.startHeight) == Some(start) && ToBounded(b.endHeight) == Some(end)
    requires WindowConfirms(hash, input, p, ids, b, start, end, entries, winners)
    ensures Framed(Beacon(input.ctx, SetDigest(hash, input.ctx, ids), start, end, entries))
  {
    BoundedBelow(b.startHeight);
    BoundedBelow(b.endHeight);
    TwelveDigitsFit(start);
    TwelveDigitsFit(end);
    SmallNumbersFit(|entries|);
    ViewSlotsFit(input.blocks, start, end);
    forall i | 0 <= i < |entries|
      ensures FitsU64(entries[i].height) && FitsU64(entries[i].slot)
    {
      assert entries[i] in entries;
      ByHeightExactly(input.blocks, start, end);
      assert entries[i].height <= end;
    }
  }

  lemma FewWinners(hash: Hash, ctx: Context, r: Record, b: BeaconRecord, p: Parameters, setHash: Digest,
                   ids: seq<Digest>, start: nat, end: nat, entries: seq<Entry>, winners: seq<Digest>)
    requires |ids| >= 2 && Sound(p)
    requires DrawFollows(hash, ctx, r, b, p, setHash, ids, start, end, entries, winners)
    ensures |winners| <= |ids| / 2
  {
    WinnersAreBounded(|ids|, RateBps(p), MaxSelected(p), MaxPerSelection(p));
  }

  lemma ConfirmedListsAreFramed(hash: Hash, input: Input, p: Parameters, ids: seq<Digest>)
    requires FramedContext(input.ctx) && FoundationConfirms(hash, input, p, ids)
    ensures Framed(Params(p, true)) && Framed(CandidateSet(input.ctx, ids))
  {
    PublishedParametersAreFramed(input.record.parameters, p);
    IdListsAreFramed(input.ctx, ids);
  }

  /** Of a confirmed draw, every hashed input is framed, so its bytes parse back to it: the digests compared
      are digests of the parameters, candidates, beacon and winners themselves. */
  lemma ConfirmedInputsAreFramed(hash: Hash, input: Input, p: Parameters, ids: seq<Digest>,
                                 entries: seq<Entry>, winners: seq<Digest>)
    requires FramedContext(input.ctx) && SlotsFit(input.blocks)
    requires ParametersPublished(input.record.parameters, p) && |ids| <= MAX_CANDIDATES
    requires DrawConfirms(hash, input, p, ids, entries, winners)
    ensures Framed(Params(p, true)) && Framed(CandidateSet(input.ctx, ids)) && Framed(Selected(input.ctx, winners))
    ensures |ids| >= 2 ==>
              && input.anchor.Some? && WindowBlocks(p) > 0
              && var start := input.anchor.value.height + StartOffset(p);
              Framed(Beacon(input.ctx, SetDigest(hash, input.ctx, ids), start, start + WindowBlocks(p) - 1, entries))
  {
    PublishedParametersAreFramed(input.record.parameters, p);
    IdListsAreFramed(input.ctx, ids);
    if |ids| >= 2 {
      var b, start := input.record.beacon.value, input.anchor.value.height + StartOffset(p);
      var end := start + WindowBlocks(p) - 1;
      ConfirmedWindow(hash, input, p, ids, entries, winners, start, end);
      WindowIsFramed(hash, input, p, ids, b, start, end, entries, winners);
      FewWinners(hash, input.ctx, input.record, b, p, SetDigest(hash, input.ctx, ids), ids, start, end, entries,
                 winners);
    }
    IdListsAreFramed(input.ctx, winners);
  }

  // ---- the anchor binds ----

  /** Two confirmed draws under one anchor memo hash their parameters to one digest and their candidates to
      one digest; so they agree on both, or the byte hash gives two different strings one digest. */
  lemma AnchorBinds(sha: seq<byte> -> Digest, hash: Hash, a: Input, b: Input, p: Parameters, p': Parameters,
                    ids: seq<Digest>, ids': seq<Digest>)
    requires forall x: Preimage :: hash(x) == sha(Encode(x))
    requires a.ctx == b.ctx && FramedContext(a.ctx) && a.anchor == b.anchor
    requires FoundationConfirms(hash, a, p, ids) && FoundationConfirms(hash, b, p', ids')
    ensures sha(Encode(Params(p, true))) == sha(Encode(Params(p', true)))
    ensures sha(Encode(CandidateSet(a.ctx, ids))) == sha(Encode(CandidateSet(a.ctx, ids')))
    ensures Encode(Params(p, true)) == Encode(Params(p', true)) <==> p == p'
    ensures Encode(CandidateSet(a.ctx, ids)) == Encode(CandidateSet(a.ctx, ids')) <==> ids == ids'
  {
    AnchoredDigestsAgree(hash, a, b, p, p', ids, ids');
    ConfirmedListsAreFramed(hash, a, p, ids);
    ConfirmedListsAreFramed(hash, b, p', ids');
    SameBytesSameInput(Params(p, true), Params(p', true));
    SameBytesSameInput(CandidateSet(a.ctx, ids), CandidateSet(a.ctx, ids'));
  }

  lemma SameBytesSameInput(x: Preimage, y: Preimage)
    requires Framed(x) && Framed(y)
    ensures Encode(x) == Encode(y) <==> x == y
  {
    if Encode(x) == Encode(y) {
      FramingIsInjective(x, y);
    }
  }

  lemma AnchoredDigestsAgree(hash: Hash, a: Input, b: Input, p: Parameters, p': Parameters,
                             ids: seq<Digest>, ids': seq<Digest>)
    requires a.ctx == b.ctx && a.anchor == b.anchor
    requires AnchorConfirms(hash, a, p, ids) && AnchorConfirms(hash, b, p', ids')
    ensures hash(Params(p, true)) == hash(Params(p', true))
    ensures hash(CandidateSet(a.ctx, ids)) == hash(CandidateSet(a.ctx, ids'))
  {
    HexIsInjective(ParamsDigest(hash, p), ParamsDigest(hash, p'));
    HexIsInjective(SetDigest(hash, a.ctx, ids), SetDigest(hash, a.ctx, ids'));
  }
}
