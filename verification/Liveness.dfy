/** Liveness evidence: at each committed height, one verdict for every slot expected to sign. */
module Liveness {
  import opened Wrappers
  import opened TemporalMap
  import opened BlockSignatures
  import opened Attribution
  import opened Counting

  /** An attributed signature row, as the liveness projection reads it. */
  datatype Observation = Observation(
    key: SignatureKey,
    slot: Option<int>,
    status: AttributionStatus,
    flagCode: Option<int>,
    signed: bool)
  {
    function Slot(): int { slot.GetOr(0) }
  }

  /** A window that covers the height: its slot is expected to sign. */
  datatype Expected = Expected(id: nat, window: Window) {
    function Slot(): int { window.slot }
  }

  datatype Verdict = Signed | MissedNil | MissedAbsent

  datatype LivenessRow = LivenessRow(
    committed: int,
    expected: Expected,
    verdict: Verdict,
    source: Option<int>,
    observed: Option<Observation>)

  datatype RefusalKind =
    | DuplicateExpectedSlot
    | MalformedInput
    | DuplicateSignedSlot
    | UnknownLivenessShape
    | NilAndSigned
    | ObservedNotExpected
    | AbsentCountMismatch

  datatype Evaluation = Accepted(rows: seq<LivenessRow>) | Refused(kind: RefusalKind)

  predicate IsAnonymousAbsent(o: Observation) {
    o.status.AbsentNoValidator? && o.flagCode == Some(FLAG_ABSENT)
  }

  predicate IsCommit(o: Observation) {
    o.status.Attributed? && o.slot.Some? && o.flagCode == Some(FLAG_COMMIT) && o.signed
  }

  predicate IsNil(o: Observation) {
    o.status.Attributed? && o.slot.Some? && o.flagCode == Some(FLAG_NIL) && !o.signed
  }

  function SignedSlots(rows: seq<Observation>): set<int> {
    set o | o in rows && IsCommit(o) :: o.Slot()
  }

  function NilSlots(rows: seq<Observation>): set<int> {
    set o | o in rows && IsNil(o) :: o.Slot()
  }

  function ExpectedSlots(expected: seq<Expected>): set<int> {
    set e | e in expected :: e.Slot()
  }

  function CountAbsent(rows: seq<Observation>): nat {
    Count(rows, IsAnonymousAbsent)
  }

  // ---- when a height is accepted ----

  ghost predicate DistinctSlots(expected: seq<Expected>) {
    forall i, j :: 0 <= i < j < |expected| ==> expected[i].Slot() != expected[j].Slot()
  }

  predicate NamesSlots(rows: seq<Observation>) {
    forall i :: 0 <= i < |rows| && rows[i].status.Attributed? ==> rows[i].slot.Some?
  }

  predicate WellShaped(rows: seq<Observation>) {
    forall i :: 0 <= i < |rows| && rows[i].status.Attributed? ==> IsCommit(rows[i]) || IsNil(rows[i])
  }

  ghost predicate SignsOnce(rows: seq<Observation>) {
    forall i, j :: 0 <= i < j < |rows| && IsCommit(rows[i]) && IsCommit(rows[j]) ==> rows[i].Slot() != rows[j].Slot()
  }

  function MissingSlots(expected: seq<Expected>, rows: seq<Observation>): set<int> {
    ExpectedSlots(expected) - SignedSlots(rows) - NilSlots(rows)
  }

  ghost predicate Acceptable(expected: seq<Expected>, rows: seq<Observation>) {
    && DistinctSlots(expected)
    && WellShaped(rows)
    && SignsOnce(rows)
    && SignedSlots(rows) !! NilSlots(rows)
    && SignedSlots(rows) + NilSlots(rows) <= ExpectedSlots(expected)
    && |MissingSlots(expected, rows)| == CountAbsent(rows)
  }

  /** What a refusal of each kind means. */
  ghost predicate Justifies(kind: RefusalKind, expected: seq<Expected>, rows: seq<Observation>) {
    match kind
    case DuplicateExpectedSlot => !DistinctSlots(expected)
    case MalformedInput => !NamesSlots(rows)
    case DuplicateSignedSlot => !SignsOnce(rows)
    case UnknownLivenessShape => !WellShaped(rows)
    case NilAndSigned => !(SignedSlots(rows) !! NilSlots(rows))
    case ObservedNotExpected => !(SignedSlots(rows) + NilSlots(rows) <= ExpectedSlots(expected))
    case AbsentCountMismatch => |MissingSlots(expected, rows)| != CountAbsent(rows)
  }

  // ---- the verdicts ----

  /** The last observation of a kind for a slot: a later vote replaces an earlier one. */
  function LastCommit(rows: seq<Observation>, slot: int): (r: Option<Observation>)
    ensures r.Some? <==> slot in SignedSlots(rows)
    ensures r.Some? ==> r.value in rows && IsCommit(r.value) && r.value.slot.value == slot
  {
    if rows == [] then None
    else
      var last := rows[|rows| - 1];
      assert rows == rows[..|rows| - 1] + [last];
      if IsCommit(last) && last.slot.value == slot then Some(last) else LastCommit(rows[..|rows| - 1], slot)
  }

  function LastNil(rows: seq<Observation>, slot: int): (r: Option<Observation>)
    ensures r.Some? <==> slot in NilSlots(rows)
    ensures r.Some? ==> r.value in rows && IsNil(r.value) && r.value.slot.value == slot
  {
    if rows == [] then None
    else
      var last := rows[|rows| - 1];
      assert rows == rows[..|rows| - 1] + [last];
      if IsNil(last) && last.slot.value == slot then Some(last) else LastNil(rows[..|rows| - 1], slot)
  }

  function RowFor(committed: int, e: Expected, rows: seq<Observation>): LivenessRow {
    var commit, nilVote := LastCommit(rows, e.Slot()), LastNil(rows, e.Slot());
    if commit.Some? then LivenessRow(committed, e, Signed, Some(commit.value.key.source), commit)
    else if nilVote.Some? then LivenessRow(committed, e, MissedNil, None, nilVote)
    else LivenessRow(committed, e, MissedAbsent, None, None)
  }

  function RowsFor(committed: int, expected: seq<Expected>, rows: seq<Observation>): seq<LivenessRow> {
    seq(|expected|, i requires 0 <= i < |expected| => RowFor(committed, expected[i], rows))
  }

  // ---- the evaluation ----

  lemma SlotsOneMore(rows: seq<Observation>, o: Observation)
    ensures SignedSlots(rows + [o]) == SignedSlots(rows) + if IsCommit(o) then {o.Slot()} else {}
    ensures NilSlots(rows + [o]) == NilSlots(rows) + if IsNil(o) then {o.Slot()} else {}
  {
    assert forall x :: x in rows + [o] <==> x in rows || x == o;
  }

  method CheckExpected(expected: seq<Expected>) returns (distinct: bool, slots: set<int>)
    ensures distinct <==> DistinctSlots(expected)
    ensures distinct ==> slots == ExpectedSlots(expected)
  {
    slots := {};
    for i := 0 to |expected|
      invariant slots == ExpectedSlots(expected[..i])
      invariant forall a, b :: 0 <= a < b < i ==> expected[a].Slot() != expected[b].Slot()
    {
      assert expected[..i + 1] == expected[..i] + [expected[i]];
      if expected[i].Slot() in slots {
        var e :| e in expected[..i] && e.Slot() == expected[i].Slot();
        return false, slots;
      }
      assert forall a :: 0 <= a < i ==> expected[a] in expected[..i];
      slots := slots + {expected[i].Slot()};
    }
    assert expected[..|expected|] == expected;
    distinct := true;
  }

  lemma ShapeOneMore(rows: seq<Observation>, o: Observation)
    ensures WellShaped(rows + [o]) <==> WellShaped(rows) && (o.status.Attributed? ==> IsCommit(o) || IsNil(o))
    ensures SignsOnce(rows + [o]) <==> SignsOnce(rows) && (IsCommit(o) ==> o.Slot() !in SignedSlots(rows))
  {
    var more := rows + [o];
    assert forall i :: 0 <= i < |rows| ==> more[i] == rows[i];
    assert more[|rows|] == o;
    if IsCommit(o) && o.Slot() in SignedSlots(rows) {
      var o' :| o' in rows && IsCommit(o') && o'.Slot() == o.Slot();
      var i :| 0 <= i < |rows| && rows[i] == o';
      assert more[i] == o';
    }
  }

  lemma PrefixRefuses(rows: seq<Observation>, n: nat)
    requires n <= |rows|
    ensures WellShaped(rows) ==> WellShaped(rows[..n])
    ensures SignsOnce(rows) ==> SignsOnce(rows[..n])
    ensures NamesSlots(rows) ==> NamesSlots(rows[..n])
  {
  }

  /** The row loop: anonymous absences are counted, attributed votes are filed by slot. */
  method CollectVotes(rows: seq<Observation>)
    returns (refusal: Option<RefusalKind>, signed: set<int>, nils: set<int>, absent: nat)
    ensures refusal.None? <==> WellShaped(rows) && SignsOnce(rows)
    ensures refusal.Some? ==> Justifies(refusal.value, [], rows)
    ensures refusal.None? ==>
              signed == SignedSlots(rows) && nils == NilSlots(rows) && absent == CountAbsent(rows)
    ensures refusal.Some? ==>
              || refusal.value.MalformedInput? || refusal.value.DuplicateSignedSlot?
              || refusal.value.UnknownLivenessShape?
  {
    signed, nils, absent, refusal := {}, {}, 0, None;
    for i := 0 to |rows|
      invariant refusal.None?
      invariant signed == SignedSlots(rows[..i]) && nils == NilSlots(rows[..i]) && absent == CountAbsent(rows[..i])
      invariant WellShaped(rows[..i]) && SignsOnce(rows[..i])
    {
      var o := rows[i];
      assert rows[..i + 1] == rows[..i] + [o] && rows[..i + 1][..i] == rows[..i];
      SlotsOneMore(rows[..i], o);
      ShapeOneMore(rows[..i], o);
      PrefixRefuses(rows, i + 1);
      if IsAnonymousAbsent(o) {
        absent := absent + 1;
      } else if o.status.Attributed? {
        if o.slot.None? {
          refusal := Some(MalformedInput);
          return;
        } else if o.flagCode == Some(FLAG_COMMIT) && o.signed {
          if o.slot.value in signed {
            refusal := Some(DuplicateSignedSlot);
            return;
          }
          signed := signed + {o.slot.value};
        } else if o.flagCode == Some(FLAG_NIL) && !o.signed {
          nils := nils + {o.slot.value};
        } else {
          refusal := Some(UnknownLivenessShape);
          return;
        }
      }
    }
    assert rows[..|rows|] == rows;
  }

  method BuildRows(committed: int, expected: seq<Expected>, rows: seq<Observation>) returns (evidence: seq<LivenessRow>)
    ensures evidence == RowsFor(committed, expected, rows)
  {
    evidence := [];
    for i := 0 to |expected|
      invariant evidence == RowsFor(committed, expected, rows)[..i]
    {
      evidence := evidence + [RowFor(committed, expected[i], rows)];
    }
  }

  method EvaluateHeight(committed: int, expected: seq<Expected>, rows: seq<Observation>) returns (r: Evaluation)
    ensures r.Accepted? <==> Acceptable(expected, rows)
    ensures r.Accepted? ==> r.rows == RowsFor(committed, expected, rows)
    ensures r.Refused? ==> Justifies(r.kind, expected, rows)
  {
    var distinct, slots := CheckExpected(expected);
    if !distinct {
      return Refused(DuplicateExpectedSlot);
    }
    var refusal, signed, nils, absent := CollectVotes(rows);
    if refusal.Some? {
      return Refused(refusal.value);
    }
    if signed * nils != {} {
      return Refused(NilAndSigned);
    }
    if !(signed + nils <= slots) {
      return Refused(ObservedNotExpected);
    }
    if |slots - signed - nils| != absent {
      return Refused(AbsentCountMismatch);
    }
    var evidence := BuildRows(committed, expected, rows);
    return Accepted(evidence);
  }

  // ---- accounting ----

  function CountVerdicts(rows: seq<LivenessRow>, v: Verdict): nat {
    Count(rows, (r: LivenessRow) => r.verdict == v)
  }

  function VerdictOf(slot: int, signed: set<int>, nils: set<int>): Verdict {
    if slot in signed then Signed else if slot in nils then MissedNil else MissedAbsent
  }

  /** A slot's verdict depends only on which slots committed and which voted nil. */
  lemma VerdictIsBySets(committed: int, e: Expected, rows: seq<Observation>)
    ensures RowFor(committed, e, rows).verdict == VerdictOf(e.Slot(), SignedSlots(rows), NilSlots(rows))
  {
  }

  lemma {:induction false} CountVerdictsOf(committed: int, expected: seq<Expected>, rows: seq<Observation>, v: Verdict)
    ensures CountVerdicts(RowsFor(committed, expected, rows), v) ==
            Count(expected, (e: Expected) => VerdictOf(e.Slot(), SignedSlots(rows), NilSlots(rows)) == v)
  {
    if expected != [] {
      var n := |expected| - 1;
      CountVerdictsOf(committed, expected[..n], rows, v);
      assert RowsFor(committed, expected, rows)[..n] == RowsFor(committed, expected[..n], rows);
      VerdictIsBySets(committed, expected[n], rows);
    }
  }

  /** Over distinct slots, the rows with a verdict are as many as the slots that get it. */
  lemma VerdictsAreSlots(committed: int, expected: seq<Expected>, rows: seq<Observation>, v: Verdict, slots: set<int>)
    requires DistinctSlots(expected)
    requires forall slot :: slot in slots <==>
               slot in ExpectedSlots(expected) && VerdictOf(slot, SignedSlots(rows), NilSlots(rows)) == v
    ensures CountVerdicts(RowsFor(committed, expected, rows), v) == |slots|
  {
    var p := (e: Expected) => VerdictOf(e.Slot(), SignedSlots(rows), NilSlots(rows)) == v;
    var f := (e: Expected) => e.Slot();
    CountVerdictsOf(committed, expected, rows, v);
    CountAndImage(expected, p, f);
    var image := Image(expected, p, f);
    forall slot
      ensures slot in image <==> slot in slots
    {
      if slot in slots {
        var e :| e in expected && e.Slot() == slot;
        assert p(e) && f(e) == slot;
      }
    }
    assert image == slots;
  }

  /** A slot signs once exactly when the commits are as many as the signed slots. */
  lemma SignsOnceByCount(rows: seq<Observation>)
    ensures SignsOnce(rows) <==> Count(rows, IsCommit) == |SignedSlots(rows)|
  {
    var f := (o: Observation) => o.Slot();
    CountAndImage(rows, IsCommit, f);
    assert Image(rows, IsCommit, f) == SignedSlots(rows);
    assert Injective(rows, IsCommit, f) <==> SignsOnce(rows);
  }

  lemma SignedAreCounted(committed: int, expected: seq<Expected>, rows: seq<Observation>)
    requires Acceptable(expected, rows)
    ensures CountVerdicts(RowsFor(committed, expected, rows), Signed) == Count(rows, IsCommit)
  {
    SignsOnceByCount(rows);
    VerdictsAreSlots(committed, expected, rows, Signed, SignedSlots(rows));
  }

  lemma NilsAreCounted(committed: int, expected: seq<Expected>, rows: seq<Observation>)
    requires Acceptable(expected, rows)
    ensures CountVerdicts(RowsFor(committed, expected, rows), MissedNil) == |NilSlots(rows)|
  {
    VerdictsAreSlots(committed, expected, rows, MissedNil, NilSlots(rows));
  }

  lemma AbsentAreCounted(committed: int, expected: seq<Expected>, rows: seq<Observation>)
    requires Acceptable(expected, rows)
    ensures CountVerdicts(RowsFor(committed, expected, rows), MissedAbsent) == CountAbsent(rows)
  {
    VerdictsAreSlots(committed, expected, rows, MissedAbsent, MissingSlots(expected, rows));
  }

  lemma RowsAreOfExpected(committed: int, expected: seq<Expected>, rows: seq<Observation>)
    ensures |RowsFor(committed, expected, rows)| == |expected|
    ensures forall i :: 0 <= i < |expected| ==>
              && RowsFor(committed, expected, rows)[i].expected == expected[i]
              && RowsFor(committed, expected, rows)[i].committed == committed
  {
  }

  /** An accepted height has exactly one row per expected slot; its signed rows are as many as the
      attributed commits, its absent rows as many as the anonymous absences, and nothing is left. */
  lemma AcceptedHeightIsAccounted(committed: int, expected: seq<Expected>, rows: seq<Observation>)
    requires Acceptable(expected, rows)
    ensures var out := RowsFor(committed, expected, rows);
            && |out| == |expected|
            && (forall i :: 0 <= i < |out| ==> out[i].expected == expected[i] && out[i].committed == committed)
            && CountVerdicts(out, Signed) == Count(rows, IsCommit)
            && CountVerdicts(out, MissedAbsent) == CountAbsent(rows)
            && CountVerdicts(out, MissedNil) == |NilSlots(rows)|
            && CountVerdicts(out, Signed) + CountVerdicts(out, MissedNil) + CountVerdicts(out, MissedAbsent) == |out|
  {
    RowsAreOfExpected(committed, expected, rows);
    SignedAreCounted(committed, expected, rows);
    NilsAreCounted(committed, expected, rows);
    AbsentAreCounted(committed, expected, rows);
    VerdictsPartition(RowsFor(committed, expected, rows));
  }

  lemma {:induction false} VerdictsPartition(rows: seq<LivenessRow>)
    ensures CountVerdicts(rows, Signed) + CountVerdicts(rows, MissedNil) + CountVerdicts(rows, MissedAbsent) == |rows|
  {
    if rows != [] {
      VerdictsPartition(rows[..|rows| - 1]);
    }
  }

  // ---- the fields of a row ----

  /** An attributed vote for the slot with this flag: 2 signed, 3 not. */
  predicate IsVote(o: Observation, slot: int, code: int) {
    o.status.Attributed? && o.slot == Some(slot) && o.flagCode == Some(code) && (o.signed <==> code == 2)
  }

  predicate IsLastVote(rows: seq<Observation>, i: int, slot: int, code: int) {
    0 <= i < |rows| && IsVote(rows[i], slot, code) && forall j :: i < j < |rows| ==> !IsVote(rows[j], slot, code)
  }

  lemma LastVoteStays(rows: seq<Observation>, i: int, slot: int, code: int)
    requires rows != [] && IsLastVote(rows[..|rows| - 1], i, slot, code) && !IsVote(rows[|rows| - 1], slot, code)
    ensures IsLastVote(rows, i, slot, code) && rows[..|rows| - 1][i] == rows[i]
  {
    assert forall j :: 0 <= j < |rows| - 1 ==> rows[..|rows| - 1][j] == rows[j];
  }

  lemma {:induction false} LastCommitExactly(rows: seq<Observation>, slot: int)
    ensures LastCommit(rows, slot).Some? ==>
              exists i :: IsLastVote(rows, i, slot, 2) && LastCommit(rows, slot) == Some(rows[i])
    ensures LastCommit(rows, slot).None? ==> forall i :: 0 <= i < |rows| ==> !IsVote(rows[i], slot, 2)
  {
    if rows != [] {
      var n := |rows| - 1;
      LastCommitExactly(rows[..n], slot);
      if IsVote(rows[n], slot, 2) {
        assert IsLastVote(rows, n, slot, 2);
      } else if LastCommit(rows[..n], slot).Some? {
        var i :| IsLastVote(rows[..n], i, slot, 2) && LastCommit(rows[..n], slot) == Some(rows[..n][i]);
        LastVoteStays(rows, i, slot, 2);
      }
    }
  }

  lemma {:induction false} LastNilExactly(rows: seq<Observation>, slot: int)
    ensures LastNil(rows, slot).Some? ==>
              exists i :: IsLastVote(rows, i, slot, 3) && LastNil(rows, slot) == Some(rows[i])
    ensures LastNil(rows, slot).None? ==> forall i :: 0 <= i < |rows| ==> !IsVote(rows[i], slot, 3)
  {
    if rows != [] {
      var n := |rows| - 1;
      LastNilExactly(rows[..n], slot);
      if IsVote(rows[n], slot, 3) {
        assert IsLastVote(rows, n, slot, 3);
      } else if LastNil(rows[..n], slot).Some? {
        var i :| IsLastVote(rows[..n], i, slot, 3) && LastNil(rows[..n], slot) == Some(rows[..n][i]);
        LastVoteStays(rows, i, slot, 3);
      }
    }
  }

  ghost predicate HasVote(rows: seq<Observation>, slot: int, code: int) {
    exists i :: 0 <= i < |rows| && IsVote(rows[i], slot, code)
  }

  /** A slot that committed is signed, from the block that carries its last commit; one that only voted nil missed with
      its last nil vote; one that did neither missed without a vote. */
  lemma RowExactly(committed: int, e: Expected, rows: seq<Observation>)
    ensures var r := RowFor(committed, e, rows); var slot := e.window.slot;
            && r.committed == committed && r.expected == e
            && (r.verdict == Signed <==> HasVote(rows, slot, 2))
            && (r.verdict == MissedNil <==> HasVote(rows, slot, 3) && !HasVote(rows, slot, 2))
            && match r.verdict
               case Signed =>
                 exists i :: IsLastVote(rows, i, slot, 2) && r.observed == Some(rows[i])
                             && r.source == Some(rows[i].key.source)
               case MissedNil =>
                 r.source == None && exists i :: IsLastVote(rows, i, slot, 3) && r.observed == Some(rows[i])
               case MissedAbsent => r.source == None && r.observed == None
  {
    LastCommitExactly(rows, e.Slot());
    LastNilExactly(rows, e.Slot());
  }

  // ---- order independence ----

  lemma PermutationKeepsVotes(a: seq<Observation>, b: seq<Observation>)
    requires multiset(a) == multiset(b)
    ensures SignedSlots(a) == SignedSlots(b) && NilSlots(a) == NilSlots(b) && CountAbsent(a) == CountAbsent(b)
    ensures WellShaped(a) <==> WellShaped(b)
    ensures SignsOnce(a) <==> SignsOnce(b)
  {
    assert forall o :: o in a <==> o in multiset(a);
    assert forall o :: o in b <==> o in multiset(b);
    assert forall i :: 0 <= i < |b| ==> b[i] in a;
    assert forall i :: 0 <= i < |a| ==> a[i] in b;
    CountPermutation(a, b, IsAnonymousAbsent);
    CountPermutation(a, b, IsCommit);
    SignsOnceByCount(a);
    SignsOnceByCount(b);
  }

  /** Acceptance, and every slot's status and cause, do not depend on the order of the evidence. */
  lemma EvidenceOrderDoesNotMatter(committed: int, expected: seq<Expected>, a: seq<Observation>, b: seq<Observation>)
    requires multiset(a) == multiset(b)
    ensures Acceptable(expected, a) <==> Acceptable(expected, b)
    ensures forall i :: 0 <= i < |expected| ==>
              RowsFor(committed, expected, a)[i].verdict == RowsFor(committed, expected, b)[i].verdict
  {
    PermutationKeepsVotes(a, b);
    forall i | 0 <= i < |expected|
      ensures RowsFor(committed, expected, a)[i].verdict == RowsFor(committed, expected, b)[i].verdict
    {
      VerdictIsBySets(committed, expected[i], a);
      VerdictIsBySets(committed, expected[i], b);
    }
  }
}
