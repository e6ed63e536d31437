/** The summary projection: one streamed pass over the evidence, then one replacement of the
    summary table. Its result is the batch summary of every slot without a malformed row. */
module SummaryProjection {
  import opened Wrappers
  import opened Counting
  import opened LivenessSummary
  import opened SummaryStream
  import Sorting

  const RECENT_WINDOWS: seq<nat> := [100, 500, 1000]

  function RowsOf(rows: seq<Row>, slot: int): seq<Row> {
    if rows == [] then []
    else
      var n := |rows| - 1;
      if rows[n].slot == slot then RowsOf(rows[..n], slot) + [rows[n]] else RowsOf(rows[..n], slot)
  }

  /** The slots of a list of rows, in order of first appearance. */
  function SlotsOf(rows: seq<Row>): seq<int> {
    if rows == [] then []
    else
      var n := |rows| - 1;
      var earlier := SlotsOf(rows[..n]);
      if rows[n].slot in earlier then earlier else earlier + [rows[n].slot]
  }

  lemma {:induction false} SlotsHaveRows(rows: seq<Row>, slot: int)
    ensures slot in SlotsOf(rows) <==> RowsOf(rows, slot) != []
  {
    if rows != [] {
      SlotsHaveRows(rows[..|rows| - 1], slot);
    }
  }

  // ---- what the projection must write ----

  function RecentSummaries(slot: int, rows: seq<Row>, invalid: set<int>, sizes: seq<nat>): seq<Summary> {
    if sizes == [] then []
    else
      var n := |sizes| - 1;
      RecentSummaries(slot, rows, invalid, sizes[..n])
      + [SummaryOf(slot, Recent(sizes[n]), LastRows(rows, sizes[n]), invalid)]
  }

  /** A slot's summaries: lifetime over all its rows, each recent window over its last rows; none
      for a slot with a malformed row. */
  function SlotSummaries(slot: int, rows: seq<Row>, invalid: set<int>): seq<Summary> {
    if FirstMalformed(rows).Some? then []
    else [SummaryOf(slot, Lifetime, rows, invalid)] + RecentSummaries(slot, rows, invalid, RECENT_WINDOWS)
  }

  function AllSummaries(slots: seq<int>, rows: seq<Row>, invalid: set<int>): seq<Summary> {
    if slots == [] then []
    else
      var n := |slots| - 1;
      AllSummaries(slots[..n], rows, invalid) + SlotSummaries(slots[n], RowsOf(rows, slots[n]), invalid)
  }

  /** A failure names the slot's last height and its first malformed one. */
  datatype Violation = Violation(sourceHeight: int, committedHeight: int)

  function SlotViolation(rows: seq<Row>): Option<Violation> {
    if FirstMalformed(rows).None? then None
    else Some(Violation(rows[|rows| - 1].height, FirstMalformed(rows).value))
  }

  function Violations(slots: seq<int>, rows: seq<Row>): seq<Violation> {
    if slots == [] then []
    else
      var n := |slots| - 1;
      var own := SlotViolation(RowsOf(rows, slots[n]));
      if own.Some? then Violations(slots[..n], rows) + [own.value] else Violations(slots[..n], rows)
  }

  function LastHeight(rows: seq<Row>): int {
    if rows == [] then 0 else rows[|rows| - 1].height
  }

  function MaxLastHeight(slots: seq<int>, rows: seq<Row>): int {
    if slots == [] then 0
    else
      var n := |slots| - 1;
      var earlier := MaxLastHeight(slots[..n], rows);
      var last := LastHeight(RowsOf(rows, slots[n]));
      if last > earlier then last else earlier
  }

  // ---- the read phase ----

  type States = map<int, SlotStream>

  ghost function Objects(states: States): set<object> {
    (set s | s in states :: states[s]) + (set s | s in states :: states[s].ring)
  }

  /** Every state has been fed its slot's rows among those seen; no two share a ring. */
  ghost predicate Holds(states: States, seen: seq<Row>)
    reads Objects(states)
  {
    && (forall s :: s in states ==>
          && states[s].slot == s && states[s].Valid() && states[s].rows == RowsOf(seen, s))
    && (forall s, s' :: s in states && s' in states && s != s' ==> states[s].ring != states[s'].ring)
  }

  /** The states are those of the rows seen, one per slot, in order of first appearance. */
  ghost predicate Tracks(states: States, order: seq<int>, seen: seq<Row>)
    reads Objects(states)
  {
    && order == SlotsOf(seen)
    && (forall s :: s in states <==> s in order)
    && Holds(states, seen)
  }

  lemma RowsOneMore(seen: seq<Row>, row: Row)
    ensures forall slot :: RowsOf(seen + [row], slot) ==
              if row.slot == slot then RowsOf(seen, slot) + [row] else RowsOf(seen, slot)
    ensures SlotsOf(seen + [row]) == if row.slot in SlotsOf(seen) then SlotsOf(seen) else SlotsOf(seen) + [row.slot]
  {
    assert (seen + [row])[..|seen|] == seen;
  }

  /** A slot seen for the first time starts with an empty state. */
  method NewState(states: States, slot: int, ghost seen: seq<Row>) returns (states': States)
    requires Holds(states, seen) && slot !in states && RowsOf(seen, slot) == []
    ensures Holds(states', seen) && states'.Keys == states.Keys + {slot}
    ensures fresh(Objects(states') - Objects(states))
  {
    var state := new SlotStream(slot);
    states' := states[slot := state];
  }

  method FeedKnownSlot(states: States, row: Row, ghost seen: seq<Row>)
    requires Holds(states, seen) && row.slot in states
    modifies Objects(states)
    ensures Holds(states, seen + [row])
  {
    RowsOneMore(seen, row);
    states[row.slot].Feed(row);
  }

  method FeedSlotState(states: States, order: seq<int>, row: Row, ghost seen: seq<Row>)
    returns (states': States, order': seq<int>)
    requires Tracks(states, order, seen)
    modifies Objects(states)
    ensures Tracks(states', order', seen + [row])
    ensures fresh(Objects(states') - Objects(states))
  {
    RowsOneMore(seen, row);
    SlotsHaveRows(seen, row.slot);
    states', order' := states, order;
    if row.slot !in states {
      states' := NewState(states, row.slot, seen);
      order' := order + [row.slot];
    }
    FeedKnownSlot(states', row, seen);
  }

  method FeedChunk(states: States, order: seq<int>, chunk: seq<Row>, ghost seen: seq<Row>)
    returns (states': States, order': seq<int>)
    requires Tracks(states, order, seen)
    modifies Objects(states)
    ensures Tracks(states', order', seen + chunk)
    ensures fresh(Objects(states') - Objects(states))
  {
    states', order' := states, order;
    assert seen + chunk[..0] == seen;
    for i := 0 to |chunk|
      invariant fresh(Objects(states') - Objects(states))
      invariant Tracks(states', order', seen + chunk[..i])
    {
      assert seen + chunk[..i + 1] == (seen + chunk[..i]) + [chunk[i]];
      states', order' := FeedSlotState(states', order', chunk[i], seen + chunk[..i]);
    }
    assert chunk[..|chunk|] == chunk;
  }

  /** A read at position `n` returns the next rows; a full one leaves the cursor at its last row. */
  lemma ChunkContinues(table: seq<Row>, upper: Option<int>, cursor: Option<Cursor>, n: nat, take: nat)
    requires InKeyOrder(table) && take >= 1
    requires n <= |Filter(table, upper, None)|
    requires Filter(table, upper, cursor) == Filter(table, upper, None)[n..]
    ensures var all := Filter(table, upper, None);
            var chunk := ReadChunk(table, upper, cursor, take);
            && n + |chunk| <= |all|
            && all[..n] + chunk == all[..n + |chunk|]
            && (|chunk| < take ==> n + |chunk| == |all|)
            && (|chunk| >= take ==>
                  var tail := chunk[|chunk| - 1];
                  Filter(table, upper, Some(Cursor(tail.slot, tail.height))) == all[n + |chunk|..])
  {
    var all := Filter(table, upper, None);
    Sorting.TakeNext(all, n, take);
    assert ReadChunk(table, upper, cursor, take) == Sorting.Take(all[n..], take);
    if |ReadChunk(table, upper, cursor, take)| >= take {
      ReadContinues(table, upper, n + take);
    }
  }

  /** The chunk loop: every row within the bound is fed exactly once, in key order. */
  method ReadStates(table: seq<Row>, upper: Option<int>, chunkSize: nat) returns (states: States, order: seq<int>)
    requires InKeyOrder(table) && chunkSize >= 1
    ensures Tracks(states, order, Filter(table, upper, None))
    ensures fresh(Objects(states))
  {
    ghost var all := Filter(table, upper, None);
    states, order := map[], [];
    var cursor: Option<Cursor> := None;
    ghost var n, seen := 0, [];
    var more := true;
    while more
      invariant n <= |all| && seen == all[..n]
      invariant if more then Filter(table, upper, cursor) == all[n..] else n == |all|
      invariant fresh(Objects(states))
      invariant Tracks(states, order, seen)
      decreases |all| - n, more
    {
      var chunk := ReadChunk(table, upper, cursor, chunkSize);
      ChunkContinues(table, upper, cursor, n, chunkSize);
      states, order := FeedChunk(states, order, chunk, seen);
      n, seen := n + |chunk|, seen + chunk;
      if |chunk| < chunkSize {
        more := false;
      } else {
        var tail := chunk[|chunk| - 1];
        cursor := Some(Cursor(tail.slot, tail.height));
      }
    }
    assert all[..n] == all;
  }

  // ---- assembling and writing ----

  lemma RecentIsOfRetained(rows: seq<Row>, n: nat)
    requires n <= MAX_RECENT_WINDOW
    ensures LastRows(LastRows(rows, MAX_RECENT_WINDOW), n) == LastRows(rows, n)
  {
  }

  method BuildRecent(slot: int, recent: seq<Row>, ghost rows: seq<Row>, invalid: set<int>) returns (out: seq<Summary>)
    requires recent == LastRows(rows, MAX_RECENT_WINDOW)
    ensures out == RecentSummaries(slot, rows, invalid, RECENT_WINDOWS)
  {
    out := [];
    var sizes := RECENT_WINDOWS;
    for i := 0 to |sizes|
      invariant out == RecentSummaries(slot, rows, invalid, sizes[..i])
    {
      RecentIsOfRetained(rows, sizes[i]);
      RecentOneMore(slot, rows, invalid, sizes, i);
      var summary := BuildSummary(slot, Recent(sizes[i]), LastRows(recent, sizes[i]), invalid);
      out := out + [summary];
    }
    assert sizes[..|sizes|] == sizes;
  }

  lemma RecentOneMore(slot: int, rows: seq<Row>, invalid: set<int>, sizes: seq<nat>, i: nat)
    requires i < |sizes|
    ensures RecentSummaries(slot, rows, invalid, sizes[..i + 1]) ==
            RecentSummaries(slot, rows, invalid, sizes[..i])
            + [SummaryOf(slot, Recent(sizes[i]), LastRows(rows, sizes[i]), invalid)]
  {
    assert sizes[..i + 1][..i] == sizes[..i];
  }

  /** The states, in order, each holding its slot's rows. */
  ghost predicate Finished(list: seq<SlotStream>, order: seq<int>, all: seq<Row>)
    reads list, set s | s in list :: s.ring
  {
    && |list| == |order|
    && forall i :: 0 <= i < |list| ==>
         list[i].Valid() && list[i].slot == order[i] && list[i].rows == RowsOf(all, order[i])
  }

  method InOrder(states: States, order: seq<int>, ghost all: seq<Row>) returns (list: seq<SlotStream>)
    requires Tracks(states, order, all)
    ensures Finished(list, order, all)
  {
    assert forall i {:trigger order[i]} :: 0 <= i < |order| ==> order[i] in states by {
      forall i | 0 <= i < |order|
        ensures order[i] in states
      {
        var slot := order[i];
        assert slot in order;
      }
    }
    list := seq(|order|, i requires 0 <= i < |order| && order[i] in states => states[order[i]]);
  }

  method Assemble(list: seq<SlotStream>, invalid: set<int>, ghost order: seq<int>, ghost all: seq<Row>)
    returns (summaries: seq<Summary>, violations: seq<Violation>, maxHeight: int)
    requires Finished(list, order, all)
    ensures summaries == AllSummaries(order, all, invalid)
    ensures violations == Violations(order, all)
    ensures maxHeight == MaxLastHeight(order, all)
  {
    summaries, violations, maxHeight := [], [], 0;
    for i := 0 to |list|
      invariant summaries == AllSummaries(order[..i], all, invalid)
      invariant violations == Violations(order[..i], all)
      invariant maxHeight == MaxLastHeight(order[..i], all)
    {
      assert order[..i + 1][..i] == order[..i];
      var own, violation, last := AssembleSlot(list[i], invalid);
      summaries := summaries + own;
      maxHeight := if last > maxHeight then last else maxHeight;
      violations := if violation.Some? then violations + [violation.value] else violations;
    }
    assert order[..|order|] == order;
  }

  method AssembleSlot(state: SlotStream, invalid: set<int>)
    returns (out: seq<Summary>, violation: Option<Violation>, last: int)
    requires state.Valid()
    ensures out == SlotSummaries(state.slot, state.rows, invalid)
    ensures violation == SlotViolation(state.rows)
    ensures last == LastHeight(state.rows)
  {
    out, violation, last := [], None, 0;
    if state.lastRow.Some? {
      last := state.lastRow.value.height;
    }
    if state.violation.Some? {
      violation := Some(Violation(last, state.violation.value));
      return;
    }
    var recent := state.MaterializeRing();
    var tail := BuildRecent(state.slot, recent, state.rows, invalid);
    out := [state.LifetimeSummary(invalid)] + tail;
  }

  function Highest(rows: seq<Row>): Option<int> {
    if rows == [] then None
    else
      var n := |rows| - 1;
      var earlier := Highest(rows[..n]);
      if earlier.Some? && rows[n].height <= earlier.value then earlier else Some(rows[n].height)
  }

  /** The bound taken at the start of an unbounded run excludes nothing. */
  lemma {:induction false} HighestExcludesNothing(table: seq<Row>, upper: Option<int>)
    requires forall r :: r in table ==> Within(r, upper)
    ensures Filter(table, upper, None) == table
  {
    if table != [] {
      var n := |table| - 1;
      assert table[n] in table;
      HighestExcludesNothing(table[..n], upper);
    }
  }

  lemma {:induction false} HighestBounds(rows: seq<Row>)
    ensures forall r :: r in rows ==> Within(r, Highest(rows))
    ensures Highest(rows).None? <==> rows == []
  {
    if rows != [] {
      var n := |rows| - 1;
      HighestBounds(rows[..n]);
      assert rows == rows[..n] + [rows[n]];
    }
  }

  /** The rows a run summarises: those up to the requested end, or all of them. */
  function Summarised(table: seq<Row>, endHeight: Option<int>): seq<Row> {
    Filter(table, endHeight, None)
  }

  lemma BoundExcludesNothing(table: seq<Row>, endHeight: Option<int>)
    ensures Filter(table, if endHeight.Some? then endHeight else Highest(table), None) == Summarised(table, endHeight)
  {
    if endHeight.None? {
      HighestBounds(table);
      HighestExcludesNothing(table, Highest(table));
      HighestExcludesNothing(table, None);
    }
  }

  class Projection {
    var summaries: seq<Summary>
    /** Failure rows by their key, the source height. */
    var failures: map<int, int>
    var cursor: int

    /** For every chunk size the run replaces the table by the batch summaries of the slots, and
        records a failure for a slot with a malformed row instead. */
    method Project(table: seq<Row>, endHeight: Option<int>, chunkSize: nat, invalid: set<int>)
      requires InKeyOrder(table) && chunkSize >= 1
      modifies this
      ensures var rows := Summarised(table, endHeight);
              && summaries == AllSummaries(SlotsOf(rows), rows, invalid)
              && failures == FailureRows(Violations(SlotsOf(rows), rows))
              && cursor == endHeight.GetOr(MaxLastHeight(SlotsOf(rows), rows))
    {
      var upper := if endHeight.Some? then endHeight else Highest(table);
      BoundExcludesNothing(table, endHeight);
      var states, order := ReadStates(table, upper, chunkSize);
      var list := InOrder(states, order, Summarised(table, endHeight));
      var built, violations, maxHeight := Assemble(list, invalid, order, Summarised(table, endHeight));
      summaries := built;
      ReplaceFailures(violations);
      cursor := endHeight.GetOr(maxHeight);
    }

    method ReplaceFailures(violations: seq<Violation>)
      modifies this`failures
      ensures failures == FailureRows(violations)
    {
      failures := map[];
      for i := 0 to |violations|
        invariant failures == FailureRows(violations[..i])
      {
        assert violations[..i + 1][..i] == violations[..i];
        failures := failures[violations[i].sourceHeight := violations[i].committedHeight];
      }
      assert violations[..|violations|] == violations;
    }
  }

  /** Failure rows are upserted by source height. */
  function FailureRows(violations: seq<Violation>): map<int, int> {
    if violations == [] then map[]
    else
      var n := |violations| - 1;
      FailureRows(violations[..n])[violations[n].sourceHeight := violations[n].committedHeight]
  }

  // ---- what the tables then say ----

  /** A slot with evidence and no malformed row has its lifetime and recent summaries in the table;
      a slot with a malformed row has none. */
  lemma {:induction false} SlotIsSummarised(slots: seq<int>, rows: seq<Row>, invalid: set<int>, s: Summary)
    ensures s in AllSummaries(slots, rows, invalid) <==>
              s.slot in slots && s in SlotSummaries(s.slot, RowsOf(rows, s.slot), invalid)
  {
    if slots != [] {
      var n := |slots| - 1;
      SlotIsSummarised(slots[..n], rows, invalid, s);
      assert slots == slots[..n] + [slots[n]];
      if s in SlotSummaries(slots[n], RowsOf(rows, slots[n]), invalid) {
        SummariesNameTheirSlot(slots[n], RowsOf(rows, slots[n]), invalid, s);
      }
    }
  }

  lemma SummariesNameTheirSlot(slot: int, rows: seq<Row>, invalid: set<int>, s: Summary)
    requires s in SlotSummaries(slot, rows, invalid)
    ensures s.slot == slot
    ensures FirstMalformed(rows).None?
    ensures s == SummaryOf(slot, Lifetime, rows, invalid)
         || exists n :: n in RECENT_WINDOWS && s == SummaryOf(slot, Recent(n), LastRows(rows, n), invalid)
  {
    if s != SummaryOf(slot, Lifetime, rows, invalid) {
      RecentSummariesExactly(slot, rows, invalid, RECENT_WINDOWS, s);
    }
  }

  lemma {:induction false} RecentLength(slot: int, rows: seq<Row>, invalid: set<int>, sizes: seq<nat>)
    ensures |RecentSummaries(slot, rows, invalid, sizes)| == |sizes|
  {
    if sizes != [] {
      RecentLength(slot, rows, invalid, sizes[..|sizes| - 1]);
    }
  }

  lemma RecentBySize(slot: int, rows: seq<Row>, invalid: set<int>, sizes: seq<nat>, recent: seq<Summary>,
                     last: Summary)
    requires sizes != []
    requires recent == RecentSummaries(slot, rows, invalid, sizes[..|sizes| - 1])
    requires last == SummaryOf(slot, Recent(sizes[|sizes| - 1]), LastRows(rows, sizes[|sizes| - 1]), invalid)
    ensures RecentSummaries(slot, rows, invalid, sizes) == recent + [last]
  {
  }

  lemma {:induction false} RecentAt(slot: int, rows: seq<Row>, invalid: set<int>, sizes: seq<nat>, i: nat)
    requires i < |sizes| == |RecentSummaries(slot, rows, invalid, sizes)|
    ensures RecentSummaries(slot, rows, invalid, sizes)[i] ==
            SummaryOf(slot, Recent(sizes[i]), LastRows(rows, sizes[i]), invalid)
  {
    var n := |sizes| - 1;
    var recent := RecentSummaries(slot, rows, invalid, sizes[..n]);
    var last := SummaryOf(slot, Recent(sizes[n]), LastRows(rows, sizes[n]), invalid);
    RecentLength(slot, rows, invalid, sizes[..n]);
    RecentBySize(slot, rows, invalid, sizes, recent, last);
    if i < n {
      RecentAt(slot, rows, invalid, sizes[..n], i);
      assert sizes[..n][i] == sizes[i] && (recent + [last])[i] == recent[i];
    } else {
      assert (recent + [last])[i] == last;
    }
  }

  lemma RecentSummariesExactly(slot: int, rows: seq<Row>, invalid: set<int>, sizes: seq<nat>, s: Summary)
    ensures s in RecentSummaries(slot, rows, invalid, sizes) <==>
              exists n :: n in sizes && s == SummaryOf(slot, Recent(n), LastRows(rows, n), invalid)
  {
    var recent := RecentSummaries(slot, rows, invalid, sizes);
    RecentLength(slot, rows, invalid, sizes);
    if s in recent {
      var i :| 0 <= i < |recent| && recent[i] == s;
      RecentAt(slot, rows, invalid, sizes, i);
      assert sizes[i] in sizes;
    }
    if n :| n in sizes && s == SummaryOf(slot, Recent(n), LastRows(rows, n), invalid) {
      var i :| 0 <= i < |sizes| && sizes[i] == n;
      RecentAt(slot, rows, invalid, sizes, i);
    }
  }

  /** A failure row is kept per last height, not per slot. */
  lemma {:induction false} FailureRowsAreByHeight(violations: seq<Violation>)
    ensures FailureRows(violations).Keys == set v | v in violations :: v.sourceHeight
  {
    if violations != [] {
      var n := |violations| - 1;
      FailureRowsAreByHeight(violations[..n]);
      assert violations == violations[..n] + [violations[n]];
    }
  }

  /** So every corrupt slot keeps its own failure row exactly when no two end at the same height. */
  lemma NoFailureRowIsLostExactly(violations: seq<Violation>)
    ensures |FailureRows(violations)| <= |violations|
    ensures |FailureRows(violations)| == |violations| <==>
              forall i, j :: 0 <= i < j < |violations| ==> violations[i].sourceHeight != violations[j].sourceHeight
  {
    var all := (v: Violation) => true;
    var height := (v: Violation) => v.sourceHeight;
    CountAll(violations, all);
    CountAndImage(violations, all, height);
    FailureRowsAreByHeight(violations);
    assert Image(violations, all, height) == FailureRows(violations).Keys;
  }
}
