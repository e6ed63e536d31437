/** Commit signatures read out of a block: block H carries the signatures of block H - 1. */
module BlockSignatures {
  import opened Wrappers
  import opened TemporalMap

  /** `last_commit.height` as the block's JSON gives it. */
  datatype CommitHeight = HeightAbsent | HeightUnparseable | HeightParsed(value: int)

  datatype RawFlag = Numeric(value: int) | AbsentWord | CommitWord | NilWord | OtherFlag

  datatype RawSignature = NotAnObject | RawSignature(validator: RawAddress, flag: RawFlag)

  datatype LastCommit = LastCommit(height: CommitHeight, signatures: Option<seq<RawSignature>>)

  datatype Block = BlockMissing | NoLastCommit | WithCommit(commit: LastCommit)

  const FLAG_ABSENT := 1
  const FLAG_COMMIT := 2
  const FLAG_NIL := 3

  function FlagCode(flag: RawFlag): Option<int> {
    match flag
    case Numeric(n) => Some(n)
    case AbsentWord => Some(FLAG_ABSENT)
    case CommitWord => Some(FLAG_COMMIT)
    case NilWord => Some(FLAG_NIL)
    case OtherFlag => None
  }

  /** The unique key of a signature row. */
  datatype SignatureKey = SignatureKey(source: int, committed: int, index: nat, validator: RawAddress)

  datatype Signature = Signature(flagCode: Option<int>, signed: bool)

  datatype BlockFailureKind =
    | MissingBlockRaw
    | MissingLastCommit
    | InvalidHeight
    | InconsistentCommittedHeight
    | MissingSignatures
    | InvalidSignaturePayload
    | InvalidValidator

  /** A failure row's unique key. */
  datatype BlockFailure = BlockFailure(kind: BlockFailureKind, height: int)

  function DerivedCommittedHeight(height: int): int {
    if height > 0 then height - 1 else 0
  }

  /** A blank address counts as absent, a malformed one is dropped and reported. */
  function StoredValidator(raw: RawAddress): RawAddress {
    if raw.HexAddress? then raw else NoAddress
  }

  function KeyOf(height: int, index: nat, raw: RawSignature): SignatureKey
    requires raw.RawSignature?
  {
    SignatureKey(height, DerivedCommittedHeight(height), index, StoredValidator(raw.validator))
  }

  function RowOf(raw: RawSignature): Signature
    requires raw.RawSignature?
  {
    Signature(FlagCode(raw.flag), FlagCode(raw.flag) == Some(FLAG_COMMIT))
  }

  /** The failures a block's commit must be reported with, each independent of the others. */
  function FailuresOf(height: int, block: Block): set<BlockFailureKind> {
    match block
    case BlockMissing => {MissingBlockRaw}
    case NoLastCommit => if height > 1 then {MissingLastCommit} else {}
    case WithCommit(c) =>
      var signatures := c.signatures.GetOr([]);
      (if c.height.HeightUnparseable? then {InvalidHeight} else {})
      + (if c.height.HeightParsed? && c.height.value != DerivedCommittedHeight(height)
         then {InconsistentCommittedHeight} else {})
      + (if signatures == [] && height > 1 then {MissingSignatures} else {})
      + SignatureFailures(signatures)
  }

  function SignaturesOf(block: Block): seq<RawSignature> {
    if block.WithCommit? then block.commit.signatures.GetOr([]) else []
  }

  /** The rows a block's signatures are stored as. */
  function StoredRows(height: int, signatures: seq<RawSignature>): map<SignatureKey, Signature> {
    if signatures == [] then map[]
    else
      var n := |signatures| - 1;
      var earlier := StoredRows(height, signatures[..n]);
      if signatures[n].NotAnObject? then earlier
      else earlier[KeyOf(height, n, signatures[n]) := RowOf(signatures[n])]
  }

  /** The failures of the signatures themselves. */
  function SignatureFailures(signatures: seq<RawSignature>): set<BlockFailureKind> {
    (if NotAnObject in signatures then {InvalidSignaturePayload} else {})
    + (if exists s :: s in signatures && s.RawSignature? && s.validator.MalformedAddress? then {InvalidValidator}
       else {})
  }

  /** Exactly the signatures that are objects are stored, each under its own key, and every key
      names the block before `height`. */
  lemma {:induction false} StoredRowsExactly(height: int, signatures: seq<RawSignature>, key: SignatureKey)
    ensures key in StoredRows(height, signatures) <==>
              && key.index < |signatures| && signatures[key.index].RawSignature?
              && key == KeyOf(height, key.index, signatures[key.index])
    ensures key in StoredRows(height, signatures) ==>
              && key.source == height && (height >= 1 ==> key.committed == height - 1)
              && StoredRows(height, signatures)[key] == RowOf(signatures[key.index])
  {
    if signatures != [] {
      StoredRowsExactly(height, signatures[..|signatures| - 1], key);
    }
  }

  class Projection {
    var rows: map<SignatureKey, Signature>
    var failures: set<BlockFailure>
    var cursor: int

    method Report(kind: BlockFailureKind, height: int)
      modifies this`failures
      ensures failures == old(failures) + {BlockFailure(kind, height)}
    {
      failures := failures + {BlockFailure(kind, height)};
    }

    /** The signature loop, given the committed height the driver settled on. */
    method StoreSignatures(height: int, committed: int, signatures: seq<RawSignature>)
      requires committed == DerivedCommittedHeight(height)
      modifies this`rows, this`failures
      ensures rows == old(rows) + StoredRows(height, signatures)
      ensures failures == old(failures) + (set k | k in SignatureFailures(signatures) :: BlockFailure(k, height))
    {
      for index := 0 to |signatures|
        invariant rows == old(rows) + StoredRows(height, signatures[..index])
        invariant failures == old(failures)
                           + (set k | k in SignatureFailures(signatures[..index]) :: BlockFailure(k, height))
      {
        var raw := signatures[index];
        assert signatures[..index + 1][..index] == signatures[..index];
        assert signatures[..index + 1] == signatures[..index] + [raw];
        if raw.NotAnObject? {
          Report(InvalidSignaturePayload, height);
        } else {
          if raw.validator.MalformedAddress? {
            Report(InvalidValidator, height);
          }
          rows := rows[SignatureKey(height, committed, index, StoredValidator(raw.validator)) := RowOf(raw)];
        }
      }
      assert signatures[..|signatures|] == signatures;
    }

    /** Every stored row of the block is keyed by source height - 1, whatever height the commit
        names; a commit naming another height is reported, never trusted. */
    method ProjectAtHeight(height: int, block: Block)
      modifies this
      ensures rows == old(rows) + StoredRows(height, SignaturesOf(block))
      ensures failures == (set f | f in old(failures) && f.height != height)
                        + (set k | k in FailuresOf(height, block) :: BlockFailure(k, height))
      ensures cursor == height
    {
      cursor := height;
      failures := set f | f in failures && f.height != height;
      if block.BlockMissing? {
        Report(MissingBlockRaw, height);
        return;
      }
      if block.NoLastCommit? {
        if height > 1 {
          Report(MissingLastCommit, height);
        }
        return;
      }
      var derived := DerivedCommittedHeight(height);
      var committed := if block.commit.height.HeightParsed? then block.commit.height.value else derived;
      if block.commit.height.HeightUnparseable? {
        Report(InvalidHeight, height);
      } else if block.commit.height.HeightParsed? && committed != derived {
        Report(InconsistentCommittedHeight, height);
        committed := derived;
      }
      if block.commit.signatures.None? || block.commit.signatures.value == [] {
        if height > 1 {
          Report(MissingSignatures, height);
        }
        return;
      }
      StoreSignatures(height, committed, block.commit.signatures.value);
    }
  }
}
