/** The streamed summary: evidence read in keyset chunks, folded per slot in constant space with a
    circular buffer for the recent windows, equals the batch summary. */
module SummaryStream {
  import opened Wrappers
  import opened Counting
  import opened LivenessSummary
  import Sorting

  /** The largest recent window bounds the rows a slot must retain. */
  const MAX_RECENT_WINDOW := 1000

  function LastRows(rows: seq<Row>, n: nat): seq<Row> {
    if |rows| <= n then rows else rows[|rows| - n..]
  }

  /** The first malformed row of a slot, if any. */
  function FirstMalformed(rows: seq<Row>): Option<int> {
    if rows == [] then None
    else
      var earlier := FirstMalformed(rows[..|rows| - 1]);
      if earlier.Some? then earlier
      else if Malformed(rows[|rows| - 1]) then Some(rows[|rows| - 1].height)
      else None
  }

  lemma {:induction false} NoMalformedRow(rows: seq<Row>)
    ensures FirstMalformed(rows).None? <==> forall i :: 0 <= i < |rows| ==> !Malformed(rows[i])
  {
    if rows != [] {
      NoMalformedRow(rows[..|rows| - 1]);
    }
  }

  /** Where the k-th of the last rows is in a full ring. */
  lemma RingPosition(n: nat, k: nat)
    requires n >= MAX_RECENT_WINDOW && k < MAX_RECENT_WINDOW
    ensures var pos := n % MAX_RECENT_WINDOW;
            (n - MAX_RECENT_WINDOW + k) % MAX_RECENT_WINDOW ==
            if k < MAX_RECENT_WINDOW - pos then pos + k else k - (MAX_RECENT_WINDOW - pos)
  {
  }

  /** Per-slot accumulator of one pass over the evidence. */
  class SlotStream {
    const slot: int
    var signedCount: nat
    var absentCount: nat
    var nilCount: nat
    var evidenceCount: nat
    var firstHeight: Option<int>
    var lastRow: Option<Row>
    var lastStatus: Option<Status>
    var trailingRun: nat
    var latestMissed: Option<int>
    const ring: array<Row>
    var ringPos: nat
    var ringCount: nat
    var violation: Option<int>

    /** Every row fed so far. */
    ghost var rows: seq<Row>

    ghost predicate Valid()
      reads this, ring
    {
      && ring.Length == MAX_RECENT_WINDOW
      && violation == FirstMalformed(rows)
      && lastRow == (if rows == [] then None else Some(rows[|rows| - 1]))
      && (violation.None? ==> Totals(rows) && Retains(rows))
    }

    ghost predicate Totals(seen: seq<Row>)
      reads this
    {
      && signedCount == Count(seen, IsSigned) && absentCount == Count(seen, IsAbsent) && nilCount == Count(seen, IsNil)
      && evidenceCount == |seen|
      && firstHeight == (if seen == [] then None else Some(seen[0].height))
      && lastStatus == (if seen == [] then None else Some(seen[|seen| - 1].status))
      && trailingRun == TrailingRun(seen)
      && latestMissed == LatestMissed(seen)
    }

    /** The ring holds the last rows, row `j` at position `j` modulo its length. */
    ghost predicate Retains(seen: seq<Row>)
      reads this, ring
    {
      && ring.Length == MAX_RECENT_WINDOW
      && ringPos == |seen| % MAX_RECENT_WINDOW
      && ringCount == (if |seen| < MAX_RECENT_WINDOW then |seen| else MAX_RECENT_WINDOW)
      && forall j :: 0 <= j < |seen| && |seen| - MAX_RECENT_WINDOW <= j ==> ring[j % MAX_RECENT_WINDOW] == seen[j]
    }

    constructor (slot: int)
      ensures Valid() && rows == [] && this.slot == slot && fresh(ring)
    {
      this.slot := slot;
      signedCount, absentCount, nilCount, evidenceCount, trailingRun := 0, 0, 0, 0, 0;
      firstHeight, lastRow, lastStatus, latestMissed, violation := None, None, None, None, None;
      ring := new Row[MAX_RECENT_WINDOW];
      ringPos, ringCount := 0, 0;
      rows := [];
    }

    method Feed(row: Row)
      requires Valid()
      modifies this, ring
      ensures Valid() && rows == old(rows) + [row]
    {
      ghost var before := rows;
      assert (before + [row])[..|before|] == before;
      lastRow := Some(row);
      rows := rows + [row];
      if violation.Some? {
        return;
      }
      if Malformed(row) {
        violation := Some(row.height);
        return;
      }
      AddToTotals(before, row);
      PushToRing(before, row);
    }

    method AddToTotals(ghost seen: seq<Row>, row: Row)
      requires Totals(seen)
      modifies this`signedCount, this`absentCount, this`nilCount, this`evidenceCount, this`firstHeight,
               this`lastStatus, this`trailingRun, this`latestMissed
      ensures Totals(seen + [row])
    {
      assert (seen + [row])[..|seen|] == seen;
      if row.status.Signed? {
        signedCount := signedCount + 1;
      } else if row.cause.Absent? {
        absentCount := absentCount + 1;
      } else if row.cause.NilVote? {
        nilCount := nilCount + 1;
      }
      evidenceCount := evidenceCount + 1;
      if firstHeight.None? {
        firstHeight := Some(row.height);
      }
      if lastStatus == Some(row.status) {
        trailingRun := trailingRun + 1;
      } else {
        lastStatus := Some(row.status);
        trailingRun := 1;
      }
      if row.status.Missed? {
        latestMissed := Some(row.height);
      }
    }

    method PushToRing(ghost seen: seq<Row>, row: Row)
      requires Retains(seen)
      modifies this`ringPos, this`ringCount, ring
      ensures Retains(seen + [row])
    {
      ring[ringPos] := row;
      ringPos := (ringPos + 1) % MAX_RECENT_WINDOW;
      if ringCount < MAX_RECENT_WINDOW {
        ringCount := ringCount + 1;
      }
    }

    /** The retained rows, oldest first. */
    method MaterializeRing() returns (recent: seq<Row>)
      requires Valid() && violation.None?
      ensures recent == LastRows(rows, MAX_RECENT_WINDOW)
    {
      if ringCount < MAX_RECENT_WINDOW {
        return ring[..ringCount];
      }
      recent := ring[ringPos..] + ring[..ringPos];
      forall k | 0 <= k < MAX_RECENT_WINDOW
        ensures recent[k] == rows[|rows| - MAX_RECENT_WINDOW + k]
      {
        RingPosition(|rows|, k);
      }
    }

    /** The lifetime summary from the running totals. */
    function LifetimeSummary(invalid: set<int>): (r: Summary)
      requires Valid() && violation.None?
      reads this, ring
      ensures r == SummaryOf(slot, Lifetime, rows, invalid)
    {
      var signedTrailing := lastStatus == Some(Signed);
      var last := if lastRow.Some? then Some(lastRow.value.height) else None;
      var within :=
        if firstHeight.Some? && last.Some? then InvalidWithin(invalid, firstHeight.value, last.value) else 0;
      Summary(slot, Lifetime,
              if lastRow.Some? then lastRow.value.operator else None,
              if lastRow.Some? then lastRow.value.address else None,
              if lastRow.Some? then lastRow.value.window else None,
              firstHeight, last,
              if firstHeight.Some? && last.Some? then Some(last.value - firstHeight.value + 1) else None,
              evidenceCount, signedCount, absentCount + nilCount, absentCount, nilCount,
              UptimeBps(signedCount, evidenceCount),
              if signedTrailing then trailingRun else 0,
              if signedTrailing || lastStatus.None? then 0 else trailingRun,
              latestMissed, within, within == 0)
    }
  }

  // ---- the keyset-chunked read ----

  /** Key order of the evidence table: slot, then height. */
  predicate KeyBefore(a: Row, b: Row) {
    a.slot < b.slot || (a.slot == b.slot && a.height < b.height)
  }

  /** The table read in key order; strictly, since (slot, height) is unique. */
  ghost predicate InKeyOrder(table: seq<Row>) {
    forall i, j :: 0 <= i < j < |table| ==> KeyBefore(table[i], table[j])
  }

  datatype Cursor = Cursor(slot: int, height: int)

  predicate IsAfter(r: Row, cursor: Option<Cursor>) {
    cursor.None? || cursor.value.slot < r.slot || (r.slot == cursor.value.slot && cursor.value.height < r.height)
  }

  predicate Within(r: Row, upper: Option<int>) {
    upper.None? || r.height <= upper.value
  }

  function Filter(table: seq<Row>, upper: Option<int>, cursor: Option<Cursor>): seq<Row> {
    if table == [] then []
    else
      var n := |table| - 1;
      var earlier := Filter(table[..n], upper, cursor);
      if Within(table[n], upper) && IsAfter(table[n], cursor) then earlier + [table[n]] else earlier
  }

  /** One read: the rows after the cursor, in key order, at most `take` of them. */
  function ReadChunk(table: seq<Row>, upper: Option<int>, cursor: Option<Cursor>, take: nat): seq<Row> {
    Sorting.Take(Filter(table, upper, cursor), take)
  }

  lemma {:induction false} FilterExactly(table: seq<Row>, upper: Option<int>, cursor: Option<Cursor>)
    requires InKeyOrder(table)
    ensures InKeyOrder(Filter(table, upper, cursor))
    ensures forall r :: r in Filter(table, upper, cursor) <==> r in table && Within(r, upper) && IsAfter(r, cursor)
  {
    if table != [] {
      var n := |table| - 1;
      FilterExactly(table[..n], upper, cursor);
      assert table == table[..n] + [table[n]];
      var earlier := Filter(table[..n], upper, cursor);
      forall i | 0 <= i < |earlier|
        ensures KeyBefore(earlier[i], table[n])
      {
        assert earlier[i] in table[..n];
        var k :| 0 <= k < n && table[k] == earlier[i];
      }
    }
  }

  lemma AfterMeansLater(all: seq<Row>, n: nat, k: nat)
    requires InKeyOrder(all) && 0 < n <= |all| && k < |all|
    ensures IsAfter(all[k], Some(Cursor(all[n - 1].slot, all[n - 1].height))) <==> n <= k
  {
    if k < n - 1 {
      assert KeyBefore(all[k], all[n - 1]);
    } else if n - 1 < k {
      assert KeyBefore(all[n - 1], all[k]);
    }
  }

  /** Reading after the n-th row continues with the n+1-st: no row is skipped or read twice. */
  lemma ReadContinues(table: seq<Row>, upper: Option<int>, n: nat)
    requires InKeyOrder(table)
    requires 0 < n <= |Filter(table, upper, None)|
    ensures var all := Filter(table, upper, None);
            Filter(table, upper, Some(Cursor(all[n - 1].slot, all[n - 1].height))) == all[n..]
  {
    var all := Filter(table, upper, None);
    var cursor := Some(Cursor(all[n - 1].slot, all[n - 1].height));
    var rest := Filter(table, upper, cursor);
    FilterExactly(table, upper, None);
    FilterExactly(table, upper, cursor);
    forall r
      ensures r in rest <==> r in all[n..]
    {
      if r in rest {
        assert r in all;
        var k :| 0 <= k < |all| && all[k] == r;
        AfterMeansLater(all, n, k);
        assert all[n..][k - n] == r;
      }
      if r in all[n..] {
        var k :| 0 <= k < |all[n..]| && all[n..][k] == r;
        assert all[n + k] == r && KeyBefore(all[n - 1], all[n + k]);
        assert r in all;
      }
    }
    assert forall i, j :: 0 <= i < j < |all[n..]| ==> KeyBefore(all[n..][i], all[n..][j]) by {
      forall i, j | 0 <= i < j < |all[n..]|
        ensures KeyBefore(all[n..][i], all[n..][j])
      {
        assert all[n..][i] == all[n + i] && all[n..][j] == all[n + j];
      }
    }
    Sorting.IncreasingDetermines(rest, all[n..], KeyBefore);
  }
}
