/** Liveness summaries of one slot: the batch definition over a list of evidence rows. */
module LivenessSummary {
  import opened Wrappers
  import opened Counting

  datatype Status = Signed | Missed | OtherStatus(name: string)

  datatype MissCause = NoCause | Absent | NilVote | OtherCause(name: string)

  datatype Row = Row(
    slot: int,
    height: int,
    status: Status,
    cause: MissCause,
    operator: Option<string>,
    address: Option<string>,
    window: Option<int>)

  datatype WindowKind = Lifetime | Recent(size: nat)

  datatype Summary = Summary(
    slot: int,
    kind: WindowKind,
    operator: Option<string>,
    address: Option<string>,
    window: Option<int>,
    first: Option<int>,
    last: Option<int>,
    span: Option<int>,
    evidence: nat,
    signed: nat,
    missed: nat,
    absent: nat,
    nils: nat,
    uptimeBps: Option<int>,
    signedStreak: nat,
    missedStreak: nat,
    latestMissed: Option<int>,
    invalidHeights: nat,
    complete: bool)

  predicate IsSigned(r: Row) { r.status.Signed? }
  predicate IsAbsent(r: Row) { !r.status.Signed? && r.cause.Absent? }
  predicate IsNil(r: Row) { !r.status.Signed? && r.cause.NilVote? }

  /** A row the liveness projection never writes. */
  predicate Malformed(r: Row) {
    !(r.status.Signed? || (r.status.Missed? && (r.cause.Absent? || r.cause.NilVote?)))
  }

  /** How many rows at the end share the last row's status. */
  function TrailingRun(rows: seq<Row>): nat {
    if rows == [] then 0
    else
      var n := |rows| - 1;
      if n > 0 && rows[n - 1].status == rows[n].status then TrailingRun(rows[..n]) + 1 else 1
  }

  /** The height of the last missed row. */
  function LatestMissed(rows: seq<Row>): Option<int> {
    if rows == [] then None
    else if rows[|rows| - 1].status.Missed? then Some(rows[|rows| - 1].height)
    else LatestMissed(rows[..|rows| - 1])
  }

  lemma {:induction false} TrailingRunExactly(rows: seq<Row>)
    requires rows != []
    ensures var run := TrailingRun(rows);
            && 1 <= run <= |rows|
            && (forall i :: |rows| - run <= i < |rows| ==> rows[i].status == rows[|rows| - 1].status)
            && (run < |rows| ==> rows[|rows| - run - 1].status != rows[|rows| - 1].status)
  {
    var n := |rows| - 1;
    if n > 0 && rows[n - 1].status == rows[n].status {
      TrailingRunExactly(rows[..n]);
    }
  }

  predicate LastMissedAt(rows: seq<Row>, i: int) {
    0 <= i < |rows| && rows[i].status.Missed? && forall j :: i < j < |rows| ==> !rows[j].status.Missed?
  }

  lemma {:induction false} LatestMissedExactly(rows: seq<Row>)
    ensures LatestMissed(rows).None? <==> forall i :: 0 <= i < |rows| ==> !rows[i].status.Missed?
    ensures LatestMissed(rows).Some? ==>
              exists i :: LastMissedAt(rows, i) && rows[i].height == LatestMissed(rows).value
  {
    if rows != [] {
      var n := |rows| - 1;
      if rows[n].status.Missed? {
        assert LastMissedAt(rows, n);
      } else {
        LatestMissedExactly(rows[..n]);
        if LatestMissed(rows).Some? {
          var i :| LastMissedAt(rows[..n], i) && rows[..n][i].height == LatestMissed(rows).value;
          assert forall j :: 0 <= j < n ==> rows[..n][j] == rows[j];
          assert LastMissedAt(rows, i);
        }
      }
    }
  }

  function InvalidWithin(invalid: set<int>, first: int, last: int): nat {
    |set h | h in invalid && first <= h <= last|
  }

  function UptimeBps(signed: nat, expected: nat): Option<int> {
    if expected > 0 then Some(signed * 10000 / expected) else None
  }

  /** The summary of a slot over a list of rows, oldest first. */
  function SummaryOf(slot: int, kind: WindowKind, rows: seq<Row>, invalid: set<int>): Summary {
    var some := rows != [];
    var signed, absent, nils := Count(rows, IsSigned), Count(rows, IsAbsent), Count(rows, IsNil);
    var invalidHeights := if some then InvalidWithin(invalid, rows[0].height, rows[|rows| - 1].height) else 0;
    var signedLast := some && rows[|rows| - 1].status.Signed?;
    Summary(slot, kind,
            if some then rows[|rows| - 1].operator else None,
            if some then rows[|rows| - 1].address else None,
            if some then rows[|rows| - 1].window else None,
            if some then Some(rows[0].height) else None,
            if some then Some(rows[|rows| - 1].height) else None,
            if some then Some(rows[|rows| - 1].height - rows[0].height + 1) else None,
            |rows|, signed, absent + nils, absent, nils, UptimeBps(signed, |rows|),
            if signedLast then TrailingRun(rows) else 0,
            if some && !signedLast then TrailingRun(rows) else 0,
            LatestMissed(rows), invalidHeights, invalidHeights == 0)
  }

  /** Well-shaped rows are signed, absent or nil, and nothing else. */
  lemma {:induction false} WellShapedRowsAreCounted(rows: seq<Row>)
    requires forall i :: 0 <= i < |rows| ==> !Malformed(rows[i])
    ensures Count(rows, IsSigned) + Count(rows, IsAbsent) + Count(rows, IsNil) == |rows|
  {
    if rows != [] {
      WellShapedRowsAreCounted(rows[..|rows| - 1]);
    }
  }

  // ---- the batch loop ----

  method CountRows(rows: seq<Row>) returns (signed: nat, absent: nat, nils: nat)
    ensures signed == Count(rows, IsSigned) && absent == Count(rows, IsAbsent) && nils == Count(rows, IsNil)
  {
    signed, absent, nils := 0, 0, 0;
    for i := 0 to |rows|
      invariant signed == Count(rows[..i], IsSigned)
      invariant absent == Count(rows[..i], IsAbsent)
      invariant nils == Count(rows[..i], IsNil)
    {
      assert rows[..i + 1][..i] == rows[..i];
      if rows[i].status.Signed? {
        signed := signed + 1;
      } else if rows[i].cause.Absent? {
        absent := absent + 1;
      } else if rows[i].cause.NilVote? {
        nils := nils + 1;
      }
    }
    assert rows[..|rows|] == rows;
  }

  /** The backward scan for the run of the last status. */
  method ScanStreak(rows: seq<Row>) returns (streak: nat)
    requires rows != []
    ensures streak == TrailingRun(rows)
  {
    streak := 0;
    var i := |rows|;
    while i > 0 && rows[i - 1].status == rows[|rows| - 1].status
      invariant 0 <= i && i + streak == |rows|
      invariant forall k :: i <= k < |rows| ==> rows[k].status == rows[|rows| - 1].status
    {
      streak := streak + 1;
      i := i - 1;
    }
    TrailingRunExactly(rows);
  }

  method ScanLatestMissed(rows: seq<Row>) returns (latest: Option<int>)
    ensures latest == LatestMissed(rows)
  {
    var i := |rows|;
    assert rows[..i] == rows;
    while i > 0
      invariant 0 <= i <= |rows|
      invariant LatestMissed(rows) == LatestMissed(rows[..i])
    {
      i := i - 1;
      if rows[i].status.Missed? {
        return Some(rows[i].height);
      }
      assert rows[..i + 1][..i] == rows[..i];
    }
    return None;
  }

  method BuildSummary(slot: int, kind: WindowKind, rows: seq<Row>, invalid: set<int>) returns (r: Summary)
    ensures r == SummaryOf(slot, kind, rows, invalid)
  {
    var signed, absent, nils := CountRows(rows);
    var latestMissed := ScanLatestMissed(rows);
    if rows == [] {
      return Summary(slot, kind, None, None, None, None, None, None, 0, 0, 0, 0, 0, None, 0, 0, None, 0, true);
    }
    var first, last := rows[0], rows[|rows| - 1];
    var streak := ScanStreak(rows);
    var signedStreak := if last.status.Signed? then streak else 0;
    var missedStreak := if last.status.Signed? then 0 else streak;
    var invalidHeights := |set h | h in invalid && first.height <= h <= last.height|;
    return Summary(slot, kind, last.operator, last.address, last.window, Some(first.height), Some(last.height),
                   Some(last.height - first.height + 1), |rows|, signed, absent + nils, absent, nils,
                   UptimeBps(signed, |rows|), signedStreak, missedStreak, latestMissed,
                   invalidHeights, invalidHeights == 0);
  }
}
