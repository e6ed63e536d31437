/** Who signed and who proposed: signature and proposer rows joined to the window table. */
module Attribution {
  import opened Wrappers
  import opened TemporalMap
  import opened BlockSignatures
  import opened WindowSafety
  import opened WindowFinality

  datatype AttributionStatus =
    | Attributed
    | AbsentNoValidator
    | NoConsensusWindow
    | UnmappedValidator
    | InvalidAddress
    | UnknownShape
    | MissingProposer

  datatype AttributionFailure =
    | InvalidCommittedHeight
    | UnknownEvidenceShape
    | InvalidValidatorAddress
    | InvalidProposerAddress

  datatype Attribution = Attribution(
    status: AttributionStatus,
    slot: Option<int>,
    operator: Option<string>,
    power: Option<int>,
    window: Option<nat>,
    failure: Option<AttributionFailure>)

  function Unattributed(status: AttributionStatus): Attribution {
    Attribution(status, None, None, None, None, None)
  }

  function Rejected(status: AttributionStatus, failure: AttributionFailure): Attribution {
    Attribution(status, None, None, None, None, Some(failure))
  }

  /** Some window, of any slot, covers the height. */
  predicate HasCoverage(t: Table, height: int) {
    exists i :: 0 <= i < |t| && Covers(t[i], height)
  }

  /** The join by consensus address at a height, shared by signatures and proposers. */
  function Lookup(t: Table, address: Address, height: int): Attribution {
    var found := FindWindow(t, Query(None, Some(address), height));
    if found.Some? then
      var w := t[found.value];
      Attribution(Attributed, Some(w.slot), w.operator, w.power, found, None)
    else Unattributed(if HasCoverage(t, height) then UnmappedValidator else NoConsensusWindow)
  }

  /** `invalidRecorded`: block signatures recorded an invalid validator address at this block. */
  function ClassifySignature(t: Table, key: SignatureKey, row: Signature, invalidRecorded: bool): Attribution {
    if key.committed < 0 then Rejected(NoConsensusWindow, InvalidCommittedHeight)
    else
      match key.validator
      case NoAddress =>
        if row.flagCode == Some(FLAG_ABSENT) then Unattributed(AbsentNoValidator)
        else if invalidRecorded then Unattributed(InvalidAddress)
        else Rejected(UnknownShape, UnknownEvidenceShape)
      case HexAddress(address) => Lookup(t, address, key.committed)
      case _ => Rejected(InvalidAddress, InvalidValidatorAddress)
  }

  /** A proposer's row does not keep the power. */
  function ClassifyProposer(t: Table, proposer: RawAddress, height: int): Attribution {
    match proposer
    case HexAddress(address) => Lookup(t, address, height).(power := None)
    case MalformedAddress => Rejected(InvalidAddress, InvalidProposerAddress)
    case _ => Unattributed(MissingProposer)
  }

  /** The part of an attribution that history fixes: operator and power may still be refreshed. */
  datatype Settled = Settled(status: AttributionStatus, slot: Option<int>, window: Option<nat>)

  function SettledPart(a: Attribution): Settled {
    Settled(a.status, a.slot, a.window)
  }

  /** An attributed row names a window of the table that covers the height, with that window's slot
      and address; without one, the status says whether the height is covered at all. */
  lemma LookupExactly(t: Table, address: Address, height: int)
    ensures var a := Lookup(t, address, height);
            && (a.status.Attributed? <==> exists i :: 0 <= i < |t| && t[i].address == address && Covers(t[i], height))
            && (a.status.Attributed? ==>
                  && a.window.Some? && a.window.value in Covering(t, height)
                  && t[a.window.value].address == address && a.slot == Some(t[a.window.value].slot))
            && (!a.status.Attributed? ==> a.slot.None? && a.window.None?)
            && (a.status.UnmappedValidator? ==> Covering(t, height) != {})
            && (a.status.NoConsensusWindow? ==> Covering(t, height) == {})
  {
    var q := Query(None, Some(address), height);
    if i :| 0 <= i < |t| && t[i].address == address && Covers(t[i], height) {
      assert Matches(t[i], q);
    }
    if HasCoverage(t, height) {
      var i :| 0 <= i < |t| && Covers(t[i], height);
      assert i in Covering(t, height);
    }
  }

  /** Tables that agree up to a height give the same settled attribution at it. */
  lemma LookupSettles(t: Table, t': Table, x: int, address: Address, height: int)
    requires Valid(t) && AgreesUpTo(t, t', x) && height <= x
    ensures SettledPart(Lookup(t', address, height)) == SettledPart(Lookup(t, address, height))
  {
    LookupIsFinal(t, t', x, address, height);
    AgreementKeepsCoverage(t, t', x, height);
    LookupExactly(t, address, height);
    LookupExactly(t', address, height);
  }

  lemma SignatureSettles(t: Table, t': Table, x: int, key: SignatureKey, row: Signature, invalidRecorded: bool)
    requires Valid(t) && AgreesUpTo(t, t', x) && key.committed <= x
    ensures SettledPart(ClassifySignature(t', key, row, invalidRecorded))
         == SettledPart(ClassifySignature(t, key, row, invalidRecorded))
  {
    if key.validator.HexAddress? {
      LookupSettles(t, t', x, key.validator.address, key.committed);
    }
  }

  lemma ProposerSettles(t: Table, t': Table, x: int, proposer: RawAddress, height: int)
    requires Valid(t) && AgreesUpTo(t, t', x) && height <= x
    ensures SettledPart(ClassifyProposer(t', proposer, height)) == SettledPart(ClassifyProposer(t, proposer, height))
  {
    if proposer.HexAddress? {
      LookupSettles(t, t', x, proposer.address, height);
    }
  }

  // ---- the drivers ----

  /** The indexed chain: signature rows, proposers, and the blocks with a recorded bad address. */
  datatype Chain = Chain(
    signatures: map<SignatureKey, Signature>,
    proposers: map<int, RawAddress>,
    invalidRecorded: set<int>)

  datatype Evidence = Evidence(row: Signature, attribution: Attribution)

  function EvidenceOf(t: Table, chain: Chain, key: SignatureKey): Evidence
    requires key in chain.signatures
  {
    Evidence(chain.signatures[key],
             ClassifySignature(t, key, chain.signatures[key], key.source in chain.invalidRecorded))
  }

  function KeysAt(chain: Chain, height: int): set<SignatureKey> {
    set key | key in chain.signatures && key.source == height
  }

  function EvidenceFor(t: Table, chain: Chain, keys: set<SignatureKey>): map<SignatureKey, Evidence>
    requires keys <= chain.signatures.Keys
  {
    map key | key in keys :: EvidenceOf(t, chain, key)
  }

  /** The evidence rows one containing block produces. */
  function EvidenceAt(t: Table, chain: Chain, height: int): map<SignatureKey, Evidence> {
    EvidenceFor(t, chain, KeysAt(chain, height))
  }

  function ProposerAt(t: Table, chain: Chain, height: int): map<int, Attribution> {
    map h | h in chain.proposers && h == height :: ClassifyProposer(t, chain.proposers[h], h)
  }

  /** A downstream run may go no further than the temporal map has. */
  function CapEndHeight(requested: int, temporalMapCursor: int): (r: int)
    ensures r <= requested && r <= temporalMapCursor
    ensures r == requested || r == temporalMapCursor
  {
    if requested < temporalMapCursor then requested else temporalMapCursor
  }

  function EvidenceRange(t: Table, chain: Chain, from: int, to: int): map<SignatureKey, Evidence> {
    map key | key in chain.signatures && from <= key.source <= to :: EvidenceOf(t, chain, key)
  }

  /** The failures recorded for a block; a failure row's key is its kind and its block. */
  function FailuresAt(t: Table, chain: Chain, keys: set<SignatureKey>): set<AttributionFailure>
    requires keys <= chain.signatures.Keys
  {
    set key | key in keys && EvidenceOf(t, chain, key).attribution.failure.Some? ::
      EvidenceOf(t, chain, key).attribution.failure.value
  }

  function FailureOf(e: Evidence, height: int): set<(AttributionFailure, int)> {
    if e.attribution.failure.Some? then {(e.attribution.failure.value, height)} else {}
  }

  function Tagged(kinds: set<AttributionFailure>, height: int): set<(AttributionFailure, int)> {
    set f | f in kinds :: (f, height)
  }

  lemma EvidenceOneMore(rows: map<SignatureKey, Evidence>, t: Table, chain: Chain, keys: set<SignatureKey>,
                        key: SignatureKey)
    requires keys <= chain.signatures.Keys && key in chain.signatures
    ensures rows + EvidenceFor(t, chain, keys + {key}) ==
            (rows + EvidenceFor(t, chain, keys))[key := EvidenceOf(t, chain, key)]
  {
  }

  lemma FailuresOneMore(t: Table, chain: Chain, keys: set<SignatureKey>, key: SignatureKey, height: int)
    requires keys <= chain.signatures.Keys && key in chain.signatures
    ensures Tagged(FailuresAt(t, chain, keys + {key}), height) ==
            Tagged(FailuresAt(t, chain, keys), height) + FailureOf(EvidenceOf(t, chain, key), height)
  {
    var failure := EvidenceOf(t, chain, key).attribution.failure;
    assert FailuresAt(t, chain, keys + {key}) ==
           FailuresAt(t, chain, keys) + if failure.Some? then {failure.value} else {};
  }

  lemma RangeOneMore(t: Table, chain: Chain, from: int, h: int)
    requires from <= h
    ensures EvidenceRange(t, chain, from, h) == EvidenceRange(t, chain, from, h - 1) + EvidenceAt(t, chain, h)
  {
  }

  lemma NothingAt(t: Table, chain: Chain, h: int)
    requires KeysAt(chain, h) == {}
    ensures EvidenceAt(t, chain, h) == map[]
  {
    forall key | key in chain.signatures
      ensures key.source != h
    {
      assert key in KeysAt(chain, h) <==> key.source == h;
    }
  }

  lemma UnionAssociates<K, V>(a: map<K, V>, b: map<K, V>, c: map<K, V>)
    ensures (a + b) + c == a + (b + c)
  {
  }

  /** The failures of the blocks of a range that have signatures are replaced by the new ones. */
  ghost predicate FailuresReplaced(before: set<(AttributionFailure, int)>, after: set<(AttributionFailure, int)>,
                                   t: Table,
                                   chain: Chain, from: int, to: int)
  {
    forall f :: f in after <==>
      if from <= f.1 <= to && KeysAt(chain, f.1) != {} then f.0 in FailuresAt(t, chain, KeysAt(chain, f.1))
      else f in before
  }

  lemma ReplacedOneMore(start: set<(AttributionFailure, int)>, before: set<(AttributionFailure, int)>,
                        after: set<(AttributionFailure, int)>, t: Table, chain: Chain, from: int, h: int)
    requires from <= h && FailuresReplaced(start, before, t, chain, from, h - 1)
    requires after == if KeysAt(chain, h) == {} then before
                      else (set f | f in before && f.1 != h) + Tagged(FailuresAt(t, chain, KeysAt(chain, h)), h)
    ensures FailuresReplaced(start, after, t, chain, from, h)
  {
  }

  class EvidenceProjection {
    var rows: map<SignatureKey, Evidence>
    var failures: set<(AttributionFailure, int)>
    var cursor: int

    method Upsert(key: SignatureKey, e: Evidence, height: int)
      modifies this`rows, this`failures
      ensures rows == old(rows)[key := e]
      ensures failures == old(failures) + FailureOf(e, height)
    {
      if e.attribution.failure.Some? {
        failures := failures + {(e.attribution.failure.value, height)};
      }
      rows := rows[key := e];
    }

    method ClassifyAll(t: Table, chain: Chain, height: int)
      modifies this`rows, this`failures
      ensures rows == old(rows) + EvidenceAt(t, chain, height)
      ensures failures == old(failures) + Tagged(FailuresAt(t, chain, KeysAt(chain, height)), height)
    {
      var todo := KeysAt(chain, height);
      ghost var seen := {};
      while todo != {}
        invariant seen + todo == KeysAt(chain, height)
        invariant rows == old(rows) + EvidenceFor(t, chain, seen)
        invariant failures == old(failures) + Tagged(FailuresAt(t, chain, seen), height)
        decreases |todo|
      {
        var key :| key in todo;
        FailuresOneMore(t, chain, seen, key, height);
        EvidenceOneMore(old(rows), t, chain, seen, key);
        Upsert(key, EvidenceOf(t, chain, key), height);
        todo := todo - {key};
        seen := seen + {key};
      }
      assert seen == KeysAt(chain, height);
    }

    /** Classifies every signature of one block and upserts its row by key. */
    method ProjectAtHeight(t: Table, chain: Chain, height: int)
      modifies this
      ensures rows == old(rows) + EvidenceAt(t, chain, height)
      ensures failures == (set f | f in old(failures) && f.1 != height)
                        + Tagged(FailuresAt(t, chain, KeysAt(chain, height)), height)
      ensures cursor == height
    {
      failures := set f | f in failures && f.1 != height;
      ClassifyAll(t, chain, height);
      cursor := height;
    }

    /** The range driver: the blocks of [start, end] that have signatures, in order. Their old failures are
        replaced, those of other blocks stay. */
    method ProjectHeights(t: Table, chain: Chain, start: int, end: int)
      modifies this
      ensures rows == old(rows) + EvidenceRange(t, chain, start, end)
      ensures FailuresReplaced(old(failures), failures, t, chain, start, end)
      ensures start <= end ==> cursor == end
    {
      var h := start;
      ghost var done := EvidenceRange(t, chain, start, start - 1);
      while h <= end
        invariant h == start || start < h <= end + 1
        invariant done == EvidenceRange(t, chain, start, h - 1)
        invariant rows == old(rows) + done
        invariant FailuresReplaced(old(failures), failures, t, chain, start, h - 1)
        decreases end - h
      {
        ghost var block, before := EvidenceAt(t, chain, h), failures;
        RangeOneMore(t, chain, start, h);
        UnionAssociates(old(rows), done, block);
        if KeysAt(chain, h) != {} {
          ProjectAtHeight(t, chain, h);
        } else {
          NothingAt(t, chain, h);
        }
        ReplacedOneMore(old(failures), before, failures, t, chain, start, h);
        done := done + block;
        h := h + 1;
      }
      if start <= end {
        cursor := end;
      }
    }
  }

  function ProposerRange(t: Table, chain: Chain, from: int, to: int): map<int, Attribution> {
    map h | h in chain.proposers && from <= h <= to :: ClassifyProposer(t, chain.proposers[h], h)
  }

  /** The failure of a block's proposer, if it has one. */
  function ProposerFailure(t: Table, chain: Chain, height: int): set<(AttributionFailure, int)> {
    if height in chain.proposers && ClassifyProposer(t, chain.proposers[height], height).failure.Some?
    then {(ClassifyProposer(t, chain.proposers[height], height).failure.value, height)} else {}
  }

  /** The failures of the blocks of a range are replaced by the new ones. */
  ghost predicate ProposerFailuresReplaced(before: set<(AttributionFailure, int)>,
                                           after: set<(AttributionFailure, int)>,
                                           t: Table, chain: Chain, from: int, to: int)
  {
    forall f :: f in after <==>
      if from <= f.1 <= to && f.1 in chain.proposers then f in ProposerFailure(t, chain, f.1) else f in before
  }

  lemma ProposerOneMore(start: set<(AttributionFailure, int)>, before: set<(AttributionFailure, int)>,
                        after: set<(AttributionFailure, int)>, t: Table, chain: Chain, from: int, h: int)
    requires from <= h && ProposerFailuresReplaced(start, before, t, chain, from, h - 1)
    requires after == if h in chain.proposers then (set f | f in before && f.1 != h) + ProposerFailure(t, chain, h)
                      else before
    ensures ProposerFailuresReplaced(start, after, t, chain, from, h)
    ensures ProposerRange(t, chain, from, h) == ProposerRange(t, chain, from, h - 1) + ProposerAt(t, chain, h)
    ensures h !in chain.proposers ==> ProposerAt(t, chain, h) == map[]
  {
  }

  class ProposerProjection {
    var rows: map<int, Attribution>
    var failures: set<(AttributionFailure, int)>
    var cursor: int

    /** Classifies a block's proposer, upserts its row and replaces the block's failures. */
    method ProjectAtHeight(t: Table, chain: Chain, height: int)
      modifies this
      ensures rows == old(rows) + ProposerAt(t, chain, height)
      ensures failures == (set f | f in old(failures) && f.1 != height) + ProposerFailure(t, chain, height)
      ensures cursor == height
    {
      failures := set f | f in failures && f.1 != height;
      if height in chain.proposers {
        var attribution := ClassifyProposer(t, chain.proposers[height], height);
        if attribution.failure.Some? {
          failures := failures + {(attribution.failure.value, height)};
        }
        rows := rows[height := attribution];
      }
      cursor := height;
    }

    /** The range driver: the indexed blocks of [start, end], in order. */
    method ProjectHeights(t: Table, chain: Chain, start: int, end: int)
      modifies this
      ensures rows == old(rows) + ProposerRange(t, chain, start, end)
      ensures ProposerFailuresReplaced(old(failures), failures, t, chain, start, end)
      ensures start <= end ==> cursor == end
    {
      var h := start;
      while h <= end
        invariant h == start || start < h <= end + 1
        invariant rows == old(rows) + ProposerRange(t, chain, start, h - 1)
        invariant ProposerFailuresReplaced(old(failures), failures, t, chain, start, h - 1)
        decreases end - h
      {
        ghost var before := failures;
        UnionAssociates(old(rows), ProposerRange(t, chain, start, h - 1), ProposerAt(t, chain, h));
        if h in chain.proposers {
          ProjectAtHeight(t, chain, h);
        }
        ProposerOneMore(old(failures), before, failures, t, chain, start, h);
        h := h + 1;
      }
      if start <= end {
        cursor := end;
      }
    }
  }
}
