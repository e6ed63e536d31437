/** From a block's raw commit signatures to the evidence its validators are judged on. */
module BlockEvidence {
  import opened Wrappers
  import opened Counting
  import opened TemporalMap
  import opened BlockSignatures
  import opened Attribution
  import opened Liveness
  import opened LivenessProjection

  /** What a raw flag means: a number is itself, a word its code, and anything else has none. */
  predicate HasFlag(flag: RawFlag, code: int) {
    || flag == Numeric(code)
    || (flag.AbsentWord? && code == 1)
    || (flag.CommitWord? && code == 2)
    || (flag.NilWord? && code == 3)
  }

  /** The height whose commit a block carries. */
  function CommittedBy(height: int): int {
    if height >= 1 then height - 1 else 0
  }

  ghost predicate IsKeyOf(key: SignatureKey, height: int, signatures: seq<RawSignature>) {
    && key.source == height && key.committed == CommittedBy(height)
    && key.index < |signatures| && signatures[key.index].RawSignature?
    && (if signatures[key.index].validator.HexAddress? then key.validator == signatures[key.index].validator
        else key.validator.NoAddress?)
  }

  /** A block's stored rows: one for every signature that is an object, with a normalised address or none, the code of
      its flag, and signed exactly if that code is the commit's. */
  lemma StoredSignaturesExactly(height: int, signatures: seq<RawSignature>, key: SignatureKey)
    ensures key in StoredRows(height, signatures) <==> IsKeyOf(key, height, signatures)
    ensures key in StoredRows(height, signatures) ==>
              var row, flag := StoredRows(height, signatures)[key], signatures[key.index].flag;
              && (forall code :: row.flagCode == Some(code) <==> HasFlag(flag, code))
              && (row.signed <==> HasFlag(flag, 2))
  {
    StoredRowsExactly(height, signatures, key);
  }

  /** A block's rows are those of its commit's signatures; without any there are none. */
  lemma BlockRowsExactly(height: int, block: Block, key: SignatureKey)
    ensures key in StoredRows(height, SignaturesOf(block)) <==>
            && block.WithCommit? && block.commit.signatures.Some?
            && IsKeyOf(key, height, block.commit.signatures.value)
  {
    StoredSignaturesExactly(height, SignaturesOf(block), key);
  }

  /** A range holds the signatures and proposers of its blocks and no others. */
  lemma RangesExactly(t: Table, chain: Chain, from: int, to: int)
    ensures forall key :: key in EvidenceRange(t, chain, from, to) <==>
              key in chain.signatures && from <= key.source <= to
    ensures forall h :: h in ProposerRange(t, chain, from, to) <==> h in chain.proposers && from <= h <= to
  {
  }

  /** Which failures a block is reported with. */
  lemma BlockFailuresExactly(height: int, block: Block, kind: BlockFailureKind)
    ensures kind in FailuresOf(height, block) <==>
              match kind
              case MissingBlockRaw => block.BlockMissing?
              case MissingLastCommit => block.NoLastCommit? && height > 1
              case InvalidHeight => block.WithCommit? && block.commit.height.HeightUnparseable?
              case InconsistentCommittedHeight =>
                && block.WithCommit? && block.commit.height.HeightParsed?
                && block.commit.height.value != CommittedBy(height)
              case MissingSignatures =>
                && block.WithCommit? && height > 1
                && (block.commit.signatures.None? || block.commit.signatures.value == [])
              case InvalidSignaturePayload =>
                && block.WithCommit? && block.commit.signatures.Some?
                && exists i :: 0 <= i < |block.commit.signatures.value| && block.commit.signatures.value[i].NotAnObject?
              case InvalidValidator =>
                && block.WithCommit? && block.commit.signatures.Some?
                && exists i :: 0 <= i < |block.commit.signatures.value| && IsMalformed(block.commit.signatures.value[i])
  {
    if block.WithCommit? && block.commit.signatures.Some? {
      var signatures := block.commit.signatures.value;
      assert forall i :: 0 <= i < |signatures| ==> signatures[i] in signatures;
    }
  }

  predicate IsMalformed(raw: RawSignature) {
    raw.RawSignature? && raw.validator.MalformedAddress?
  }

  // ---- classification ----

  ghost predicate Owns(t: Table, address: Address, height: int) {
    exists i :: 0 <= i < |t| && t[i].address == address && Covers(t[i], height)
  }

  ghost predicate Covered(t: Table, height: int) {
    exists i :: 0 <= i < |t| && Covers(t[i], height)
  }

  /** The window an attribution names is the address's latest one that covers the height, and its slot, operator and
      power are that window's. */
  ghost predicate TakenFrom(a: Attribution, t: Table, address: Address, height: int) {
    && a.window.Some? && a.window.value < |t|
    && var w := t[a.window.value];
      && w.address == address && Covers(w, height)
      && a.slot == Some(w.slot) && a.operator == w.operator && a.power == w.power
      && forall i :: 0 <= i < |t| && t[i].address == address && Covers(t[i], height) ==> t[i].from <= w.from
  }

  predicate Blank(a: Attribution) {
    a.slot.None? && a.operator.None? && a.power.None? && a.window.None?
  }

  lemma LookupTakes(t: Table, address: Address, height: int)
    ensures var a := Lookup(t, address, height);
            && (a.status.Attributed? <==> Owns(t, address, height))
            && (a.status.UnmappedValidator? <==> !Owns(t, address, height) && Covered(t, height))
            && (a.status.NoConsensusWindow? <==> !Covered(t, height))
            && (if a.status.Attributed? then TakenFrom(a, t, address, height) else Blank(a))
            && a.failure.None?
  {
    var q := Query(None, Some(address), height);
    assert forall i :: 0 <= i < |t| ==> (Matches(t[i], q) <==> t[i].address == address && Covers(t[i], height));
  }

  /** When a signature gets each status and each failure, and what the rest of its row is then. */
  lemma ClassifySignatureExactly(t: Table, key: SignatureKey, row: Signature, invalidRecorded: bool)
    ensures var a := ClassifySignature(t, key, row, invalidRecorded);
            var placed := key.committed >= 0; var v := key.validator; var absent := row.flagCode == Some(1);
            && (a.status.AbsentNoValidator? <==> placed && v.NoAddress? && absent)
            && (a.status.UnknownShape? <==> placed && v.NoAddress? && !absent && !invalidRecorded)
            && (a.status.InvalidAddress? <==>
                  placed && ((v.NoAddress? && !absent && invalidRecorded) || v.MalformedAddress? || v.BlankAddress?))
            && (a.status.Attributed? <==> placed && v.HexAddress? && Owns(t, v.address, key.committed))
            && (a.status.UnmappedValidator? <==>
                  placed && v.HexAddress? && !Owns(t, v.address, key.committed) && Covered(t, key.committed))
            && (a.status.NoConsensusWindow? <==> !placed || (v.HexAddress? && !Covered(t, key.committed)))
            && (if a.status.Attributed? then TakenFrom(a, t, v.address, key.committed) else Blank(a))
            && (a.failure == Some(InvalidCommittedHeight) <==> !placed)
            && (a.failure == Some(UnknownEvidenceShape) <==> a.status.UnknownShape?)
            && (a.failure == Some(InvalidValidatorAddress) <==> placed && (v.MalformedAddress? || v.BlankAddress?))
            && a.failure != Some(InvalidProposerAddress)
  {
    if key.committed >= 0 && key.validator.HexAddress? {
      LookupTakes(t, key.validator.address, key.committed);
    }
  }

  /** When a proposer gets each status and its only failure; its row keeps no power. */
  lemma ClassifyProposerExactly(t: Table, proposer: RawAddress, height: int)
    ensures var a := ClassifyProposer(t, proposer, height);
            && (a.status.MissingProposer? <==> proposer.NoAddress? || proposer.BlankAddress?)
            && (a.status.InvalidAddress? <==> proposer.MalformedAddress?)
            && (a.status.Attributed? <==> proposer.HexAddress? && Owns(t, proposer.address, height))
            && (a.status.UnmappedValidator? <==>
                  proposer.HexAddress? && !Owns(t, proposer.address, height) && Covered(t, height))
            && (a.status.NoConsensusWindow? <==> proposer.HexAddress? && !Covered(t, height))
            && a.power.None?
            && (if a.status.Attributed?
                then exists power :: TakenFrom(a.(power := power), t, proposer.address, height)
                else Blank(a))
            && (a.failure.Some? <==> proposer.MalformedAddress?)
            && (a.failure.Some? ==> a.failure.value.InvalidProposerAddress?)
  {
    if proposer.HexAddress? {
      LookupTakes(t, proposer.address, height);
      var a := ClassifyProposer(t, proposer, height);
      assert a.(power := Lookup(t, proposer.address, height).power) == Lookup(t, proposer.address, height);
    }
  }

  // ---- a block, end to end ----

  /** The indexed chain holds what the signature projection made of the block. */
  ghost predicate Indexes(chain: Chain, height: int, signatures: seq<RawSignature>) {
    && KeysAt(chain, height) == StoredRows(height, signatures).Keys
    && (forall key :: key in KeysAt(chain, height) ==> chain.signatures[key] == StoredRows(height, signatures)[key])
    && (height in chain.invalidRecorded <==> exists i :: 0 <= i < |signatures| && IsMalformed(signatures[i]))
  }

  /** The row a raw signature ends as in the evidence table. */
  ghost predicate IsAttributionOf(a: Attribution, t: Table, height: int, signatures: seq<RawSignature>, i: nat)
    requires i < |signatures| && signatures[i].RawSignature?
  {
    var v, flag := signatures[i].validator, signatures[i].flag;
    if v.HexAddress? then
      && (a.status.Attributed? <==> Owns(t, v.address, CommittedBy(height)))
      && (a.status.UnmappedValidator? <==>
            !Owns(t, v.address, CommittedBy(height)) && Covered(t, CommittedBy(height)))
      && (a.status.NoConsensusWindow? <==> !Covered(t, CommittedBy(height)))
      && (if a.status.Attributed? then TakenFrom(a, t, v.address, CommittedBy(height)) else Blank(a))
      && a.failure.None?
    else
      && Blank(a)
      && (a.status.AbsentNoValidator? <==> HasFlag(flag, 1))
      && (a.status.InvalidAddress? <==>
            !HasFlag(flag, 1) && exists j :: 0 <= j < |signatures| && IsMalformed(signatures[j]))
      && (a.status.UnknownShape? <==>
            !HasFlag(flag, 1) && forall j :: 0 <= j < |signatures| ==> !IsMalformed(signatures[j]))
      && (a.failure.Some? <==> a.status.UnknownShape?)
      && (a.failure.Some? ==> a.failure.value.UnknownEvidenceShape?)
  }

  /** Every raw signature that is an object has one evidence row, with this attribution, and there are no others. */
  lemma BlockEvidenceExactly(t: Table, chain: Chain, height: int, signatures: seq<RawSignature>, key: SignatureKey)
    requires Indexes(chain, height, signatures)
    ensures key in EvidenceAt(t, chain, height) <==> IsKeyOf(key, height, signatures)
    ensures key in EvidenceAt(t, chain, height) ==>
              IsAttributionOf(EvidenceAt(t, chain, height)[key].attribution, t, height, signatures, key.index)
  {
    StoredSignaturesExactly(height, signatures, key);
    assert key in EvidenceAt(t, chain, height) <==> key in KeysAt(chain, height);
    if key in EvidenceAt(t, chain, height) {
      var row := StoredRows(height, signatures)[key];
      assert HasFlag(signatures[key.index].flag, 1) <==> row.flagCode == Some(1);
      ClassifySignatureExactly(t, key, row, height in chain.invalidRecorded);
    }
  }

  // ---- the absences of a block ----

  /** The observations of a block, in any order. */
  ghost predicate Observes(observed: seq<Observation>, t: Table, chain: Chain, height: int) {
    && (forall i, j :: 0 <= i < j < |observed| ==> observed[i].key != observed[j].key)
    && (forall o :: o in observed ==>
          o.key in EvidenceAt(t, chain, height) && o == ObservationOf(o.key, EvidenceAt(t, chain, height)[o.key]))
    && (forall key :: key in EvidenceAt(t, chain, height) ==> exists o :: o in observed && o.key == key)
  }

  /** An object without a normalised address whose flag says absent. */
  predicate IsAbsentVote(raw: RawSignature) {
    raw.RawSignature? && !raw.validator.HexAddress? && (raw.flag == Numeric(1) || raw.flag.AbsentWord?)
  }

  function IndexOf(o: Observation): int { o.key.index }

  /** A commit of a validator whose address has a window at the height voted on. */
  ghost predicate IsCommitVote(t: Table, height: int, raw: RawSignature) {
    && raw.RawSignature? && raw.validator.HexAddress? && Owns(t, raw.validator.address, CommittedBy(height))
    && (raw.flag == Numeric(2) || raw.flag.CommitWord?)
  }

  ghost predicate IsNilVote(t: Table, height: int, raw: RawSignature) {
    && raw.RawSignature? && raw.validator.HexAddress? && Owns(t, raw.validator.address, CommittedBy(height))
    && (raw.flag == Numeric(3) || raw.flag.NilWord?)
  }

  lemma VoteExactly(t: Table, chain: Chain, height: int, signatures: seq<RawSignature>, o: Observation)
    requires Indexes(chain, height, signatures)
    requires o.key in EvidenceAt(t, chain, height) && o == ObservationOf(o.key, EvidenceAt(t, chain, height)[o.key])
    ensures IsKeyOf(o.key, height, signatures)
    ensures IsAnonymousAbsent(o) <==> IsAbsentVote(signatures[o.key.index])
    ensures IsCommit(o) <==> IsCommitVote(t, height, signatures[o.key.index])
    ensures IsNil(o) <==> IsNilVote(t, height, signatures[o.key.index])
  {
    BlockEvidenceExactly(t, chain, height, signatures, o.key);
    StoredSignaturesExactly(height, signatures, o.key);
    var flag := signatures[o.key.index].flag;
    assert HasFlag(flag, 1) <==> o.flagCode == Some(1);
    assert HasFlag(flag, 2) <==> o.flagCode == Some(2);
    assert HasFlag(flag, 3) <==> o.flagCode == Some(3);
  }

  /** Observations, one per signature that is an object, are as many as the signatures they are observed of. */
  lemma CountedByIndex(t: Table, chain: Chain, height: int, signatures: seq<RawSignature>,
                       observed: seq<Observation>, p: Observation -> bool, q: RawSignature -> bool)
    requires Indexes(chain, height, signatures) && Observes(observed, t, chain, height)
    requires forall o :: o in observed ==> o.key.index < |signatures| && (p(o) <==> q(signatures[o.key.index]))
    requires forall raw :: q(raw) ==> raw.RawSignature?
    ensures Count(observed, p) == |Positions(signatures, q)|
  {
    CountAndImage(observed, p, IndexOf);
    forall i, j | 0 <= i < j < |observed|
      ensures IndexOf(observed[i]) != IndexOf(observed[j])
    {
      assert observed[i] in observed && observed[j] in observed;
      BlockEvidenceExactly(t, chain, height, signatures, observed[i].key);
      BlockEvidenceExactly(t, chain, height, signatures, observed[j].key);
    }
    forall i
      ensures i in Image(observed, p, IndexOf) <==> i in Positions(signatures, q)
    {
      if i in Positions(signatures, q) {
        var v := signatures[i].validator;
        var key := SignatureKey(height, CommittedBy(height), i, if v.HexAddress? then v else NoAddress);
        BlockEvidenceExactly(t, chain, height, signatures, key);
        var o :| o in observed && o.key == key;
      }
    }
    assert Image(observed, p, IndexOf) == Positions(signatures, q);
  }

  /** The votes a height is judged with are as many as those of its raw block: the anonymous absences, and the commits
      and the nil votes of the validators that own a window. */
  lemma VotesAreCounted(t: Table, chain: Chain, height: int, signatures: seq<RawSignature>,
                        observed: seq<Observation>)
    requires Indexes(chain, height, signatures) && Observes(observed, t, chain, height)
    ensures CountAbsent(observed) == |set i | 0 <= i < |signatures| && IsAbsentVote(signatures[i])|
    ensures Count(observed, IsCommit) == |set i | 0 <= i < |signatures| && IsCommitVote(t, height, signatures[i])|
    ensures Count(observed, Liveness.IsNil) == |set i | 0 <= i < |signatures| && IsNilVote(t, height, signatures[i])|
  {
    forall o | o in observed
      ensures o.key.index < |signatures|
      ensures IsAnonymousAbsent(o) <==> IsAbsentVote(signatures[o.key.index])
      ensures IsCommit(o) <==> IsCommitVote(t, height, signatures[o.key.index])
      ensures IsNil(o) <==> IsNilVote(t, height, signatures[o.key.index])
    {
      VoteExactly(t, chain, height, signatures, o);
    }
    ghost var commits := (raw: RawSignature) => IsCommitVote(t, height, raw);
    ghost var nils := (raw: RawSignature) => IsNilVote(t, height, raw);
    CountedByIndex(t, chain, height, signatures, observed, IsAnonymousAbsent, IsAbsentVote);
    CountedByIndex(t, chain, height, signatures, observed, IsCommit, commits);
    CountedByIndex(t, chain, height, signatures, observed, Liveness.IsNil, nils);
    assert Positions(signatures, IsAbsentVote) == set i | 0 <= i < |signatures| && IsAbsentVote(signatures[i]);
    assert Positions(signatures, commits) == set i | 0 <= i < |signatures| && IsCommitVote(t, height, signatures[i]);
    assert Positions(signatures, nils) == set i | 0 <= i < |signatures| && IsNilVote(t, height, signatures[i]);
  }

  /** An accepted height has as many signed rows as its raw block has commits of validators that own a window, and as
      many absent rows as it has absent votes. */
  lemma AcceptedHeightMatchesItsBlock(t: Table, chain: Chain, height: int, signatures: seq<RawSignature>,
                                      observed: seq<Observation>)
    requires Indexes(chain, height, signatures) && Observes(observed, t, chain, height)
    requires Acceptable(ActiveWindows(t, CommittedBy(height)), observed)
    ensures var out := RowsFor(CommittedBy(height), ActiveWindows(t, CommittedBy(height)), observed);
            && CountVerdicts(out, Signed) == |set i | 0 <= i < |signatures| && IsCommitVote(t, height, signatures[i])|
            && CountVerdicts(out, MissedAbsent) == |set i | 0 <= i < |signatures| && IsAbsentVote(signatures[i])|
  {
    VotesAreCounted(t, chain, height, signatures, observed);
    AcceptedHeightIsAccounted(CommittedBy(height), ActiveWindows(t, CommittedBy(height)), observed);
  }
}
