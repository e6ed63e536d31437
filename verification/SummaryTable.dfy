/** What the summary tables say, read off the evidence rows alone. */
module SummaryTable {
  import opened Wrappers
  import opened Counting
  import opened LivenessSummary
  import opened SummaryStream
  import opened SummaryProjection
  import opened Sorting

  /** Uptime is signed per evidence in basis points, rounded down; full uptime means that every row is signed. */
  ghost predicate IsUptime(bps: Option<int>, rows: seq<Row>, signed: nat) {
    && (bps.Some? <==> rows != [])
    && (bps.Some? ==>
          && bps.value * |rows| <= 10000 * signed < (bps.value + 1) * |rows|
          && 0 <= bps.value <= 10000
          && (bps.value == 10000 <==> forall i :: 0 <= i < |rows| ==> rows[i].status.Signed?))
  }

  /** The last `n` rows share their status, and the row before them has another one. */
  ghost predicate IsStreak(rows: seq<Row>, n: nat)
    requires rows != []
  {
    && 1 <= n <= |rows|
    && (forall i :: |rows| - n <= i < |rows| ==> rows[i].status == rows[|rows| - 1].status)
    && (n < |rows| ==> rows[|rows| - n - 1].status != rows[|rows| - 1].status)
  }

  ghost predicate IsLatestMissed(latest: Option<int>, rows: seq<Row>) {
    if latest.None? then forall i :: 0 <= i < |rows| ==> !rows[i].status.Missed?
    else exists i :: 0 <= i < |rows| && rows[i].status.Missed? && rows[i].height == latest.value
                     && forall j :: i < j < |rows| ==> !rows[j].status.Missed?
  }

  /** The fields that count rows. */
  ghost predicate CountsOf(s: Summary, rows: seq<Row>) {
    && s.evidence == |rows|
    && s.signed == |set i | 0 <= i < |rows| && rows[i].status.Signed?|
    && s.absent == |set i | 0 <= i < |rows| && !rows[i].status.Signed? && rows[i].cause.Absent?|
    && s.nils == |set i | 0 <= i < |rows| && !rows[i].status.Signed? && rows[i].cause.NilVote?|
    && s.missed == s.absent + s.nils
    && IsUptime(s.uptimeBps, rows, s.signed)
  }

  /** The fields read off the ends of the list. */
  ghost predicate EndsOf(s: Summary, rows: seq<Row>, invalid: set<int>)
    requires rows != []
  {
    var first, last := rows[0], rows[|rows| - 1];
    && s.operator == last.operator && s.address == last.address && s.window == last.window
    && s.first == Some(first.height) && s.last == Some(last.height)
    && s.span.Some? && s.first.value + s.span.value == s.last.value + 1
    && s.invalidHeights == |set h | h in invalid && first.height <= h <= last.height|
    && (s.complete <==> forall h :: h in invalid ==> h < first.height || last.height < h)
  }

  ghost predicate StreaksOf(s: Summary, rows: seq<Row>)
    requires rows != []
  {
    && IsStreak(rows, if rows[|rows| - 1].status.Signed? then s.signedStreak else s.missedStreak)
    && (if rows[|rows| - 1].status.Signed? then s.missedStreak else s.signedStreak) == 0
    && IsLatestMissed(s.latestMissed, rows)
  }

  /** A summary says of its rows what they say. */
  ghost predicate Summarises(s: Summary, rows: seq<Row>, invalid: set<int>) {
    && CountsOf(s, rows)
    && if rows != [] then EndsOf(s, rows, invalid) && StreaksOf(s, rows)
       else
         && s.operator.None? && s.address.None? && s.window.None? && s.first.None? && s.last.None? && s.span.None?
         && s.signedStreak == 0 && s.missedStreak == 0 && s.latestMissed.None? && s.invalidHeights == 0 && s.complete
  }

  lemma UptimeExactly(rows: seq<Row>)
    ensures IsUptime(UptimeBps(Count(rows, IsSigned), |rows|), rows, Count(rows, IsSigned))
  {
    var signed := Count(rows, IsSigned);
    CountIsAllExactly(rows, IsSigned);
    if rows != [] {
      Rounded(signed, |rows|);
      assert forall i :: 0 <= i < |rows| ==> (IsSigned(rows[i]) <==> rows[i].status.Signed?);
    }
  }

  lemma Quotient(a: nat, n: nat)
    requires n > 0
    ensures a / n * n <= a < (a / n + 1) * n
  {
  }

  lemma QuotientBounds(v: nat, signed: nat, n: nat)
    requires signed <= n && n > 0 && v * n <= 10000 * signed < (v + 1) * n
    ensures v <= 10000 && (v == 10000 <==> signed == n)
  {
    if v >= 10000 {
      assert v * n >= 10000 * n;
    }
    if v < 10000 {
      assert (v + 1) * n <= 10000 * n;
    }
  }

  lemma Rounded(signed: nat, n: nat)
    requires signed <= n && n > 0
    ensures var v := signed * 10000 / n;
            v * n <= 10000 * signed < (v + 1) * n && 0 <= v <= 10000 && (v == 10000 <==> signed == n)
  {
    Quotient(signed * 10000, n);
    QuotientBounds(signed * 10000 / n, signed, n);
  }

  lemma CountsExactly(slot: int, kind: WindowKind, rows: seq<Row>, invalid: set<int>)
    ensures CountsOf(SummaryOf(slot, kind, rows, invalid), rows)
  {
    CountPositions(rows, IsSigned);
    CountPositions(rows, IsAbsent);
    CountPositions(rows, IsNil);
    assert Positions(rows, IsSigned) == set i | 0 <= i < |rows| && rows[i].status.Signed?;
    assert Positions(rows, IsAbsent) == set i | 0 <= i < |rows| && !rows[i].status.Signed? && rows[i].cause.Absent?;
    assert Positions(rows, IsNil) == set i | 0 <= i < |rows| && !rows[i].status.Signed? && rows[i].cause.NilVote?;
    UptimeExactly(rows);
  }

  lemma EndsExactly(slot: int, kind: WindowKind, rows: seq<Row>, invalid: set<int>)
    requires rows != []
    ensures EndsOf(SummaryOf(slot, kind, rows, invalid), rows, invalid)
  {
    var within := set h | h in invalid && rows[0].height <= h <= rows[|rows| - 1].height;
    assert forall h :: h in within <==> h in invalid && rows[0].height <= h <= rows[|rows| - 1].height;
    assert |within| == 0 <==> within == {};
  }

  /** Every field of a summary, read off its rows. */
  lemma SummaryExactly(slot: int, kind: WindowKind, rows: seq<Row>, invalid: set<int>)
    ensures var s := SummaryOf(slot, kind, rows, invalid);
            s.slot == slot && s.kind == kind && Summarises(s, rows, invalid)
  {
    CountsExactly(slot, kind, rows, invalid);
    LatestMissedExactly(rows);
    if rows != [] {
      EndsExactly(slot, kind, rows, invalid);
      TrailingRunExactly(rows);
      if LatestMissed(rows).Some? {
        var i :| LastMissedAt(rows, i) && rows[i].height == LatestMissed(rows).value;
      }
    }
  }

  // ---- the tables ----

  ghost predicate WellShaped(r: Row) {
    r.status.Signed? || (r.status.Missed? && (r.cause.Absent? || r.cause.NilVote?))
  }

  /** A row of the slot that the run reads. */
  ghost predicate IsRead(r: Row, table: seq<Row>, endHeight: Option<int>, slot: int) {
    r in table && r.slot == slot && (endHeight.Some? ==> r.height <= endHeight.value)
  }

  ghost predicate ByHeight(rows: seq<Row>) {
    forall i, j :: 0 <= i < j < |rows| ==> rows[i].height < rows[j].height
  }

  /** The rows of a slot that the run reads, oldest first. */
  ghost predicate IsEvidenceOf(own: seq<Row>, table: seq<Row>, endHeight: Option<int>, slot: int) {
    ByHeight(own) && forall r :: r in own <==> IsRead(r, table, endHeight, slot)
  }

  /** The rows a kind of summary covers: all of a slot's, or its last hundred, five hundred or thousand. */
  ghost predicate IsCovered(rows: seq<Row>, own: seq<Row>, kind: WindowKind) {
    match kind
    case Lifetime => rows == own
    case Recent(n) =>
      && n in {100, 500, 1000}
      && |rows| == (if |own| < n then |own| else n)
      && rows == own[|own| - |rows|..]
  }

  lemma {:induction false} RowsOfExactly(rows: seq<Row>, slot: int)
    requires InKeyOrder(rows)
    ensures InKeyOrder(RowsOf(rows, slot))
    ensures forall r :: r in RowsOf(rows, slot) <==> r in rows && r.slot == slot
  {
    if rows != [] {
      var n := |rows| - 1;
      RowsOfExactly(rows[..n], slot);
      assert rows == rows[..n] + [rows[n]];
      forall r | r in RowsOf(rows[..n], slot)
        ensures KeyBefore(r, rows[n])
      {
        var k :| 0 <= k < n && rows[k] == r;
      }
    }
  }

  lemma EvidenceIsRowsOf(own: seq<Row>, table: seq<Row>, endHeight: Option<int>, slot: int)
    requires InKeyOrder(table) && IsEvidenceOf(own, table, endHeight, slot)
    ensures own == RowsOf(Summarised(table, endHeight), slot)
  {
    var rows := Summarised(table, endHeight);
    FilterExactly(table, endHeight, None);
    RowsOfExactly(rows, slot);
    forall i, j | 0 <= i < j < |own|
      ensures KeyBefore(own[i], own[j])
    {
      assert own[i] in own && own[j] in own;
    }
    IncreasingDetermines(own, RowsOf(rows, slot), KeyBefore);
  }

  ghost function TableOf(table: seq<Row>, endHeight: Option<int>, invalid: set<int>): seq<Summary> {
    var rows := Summarised(table, endHeight);
    AllSummaries(SlotsOf(rows), rows, invalid)
  }

  ghost predicate HasSummary(out: seq<Summary>, slot: int, kind: WindowKind) {
    exists s :: s in out && s.slot == slot && s.kind == kind
  }

  ghost predicate TellsOf(s: Summary, own: seq<Row>, invalid: set<int>) {
    exists rows :: IsCovered(rows, own, s.kind) && Summarises(s, rows, invalid)
  }

  lemma CoveredRows(own: seq<Row>, n: nat)
    requires n in {100, 500, 1000}
    ensures IsCovered(LastRows(own, n), own, Recent(n))
  {
  }

  lemma LifetimeTells(slot: int, own: seq<Row>, invalid: set<int>)
    ensures TellsOf(SummaryOf(slot, Lifetime, own, invalid), own, invalid)
  {
    SummaryExactly(slot, Lifetime, own, invalid);
    assert IsCovered(own, own, Lifetime);
  }

  lemma RecentTells(slot: int, own: seq<Row>, invalid: set<int>, n: nat)
    requires n in {100, 500, 1000}
    ensures TellsOf(SummaryOf(slot, Recent(n), LastRows(own, n), invalid), own, invalid)
  {
    SummaryExactly(slot, Recent(n), LastRows(own, n), invalid);
    CoveredRows(own, n);
  }

  ghost predicate AllTell(out: seq<Summary>, slot: int, own: seq<Row>, invalid: set<int>) {
    && (forall s :: s in out && s.slot == slot ==> TellsOf(s, own, invalid))
    && HasSummary(out, slot, Lifetime) && HasSummary(out, slot, Recent(100))
    && HasSummary(out, slot, Recent(500)) && HasSummary(out, slot, Recent(1000))
  }

  lemma SlotSummariesTell(slot: int, own: seq<Row>, invalid: set<int>)
    requires FirstMalformed(own).None?
    ensures AllTell(SlotSummaries(slot, own, invalid), slot, own, invalid)
    ensures forall s :: s in SlotSummaries(slot, own, invalid) ==> s.slot == slot
  {
    var out := SlotSummaries(slot, own, invalid);
    LifetimeTells(slot, own, invalid);
    assert out[0] in out;
    forall s | s in out
      ensures s.slot == slot && TellsOf(s, own, invalid)
    {
      SummariesNameTheirSlot(slot, own, invalid, s);
      if n :| n in RECENT_WINDOWS && s == SummaryOf(slot, Recent(n), LastRows(own, n), invalid) {
        RecentTells(slot, own, invalid, n);
      }
    }
    forall n | n in RECENT_WINDOWS
      ensures HasSummary(out, slot, Recent(n))
    {
      var s := SummaryOf(slot, Recent(n), LastRows(own, n), invalid);
      RecentSummariesExactly(slot, own, invalid, RECENT_WINDOWS, s);
      assert s in out;
    }
    assert RECENT_WINDOWS[0] == 100 && RECENT_WINDOWS[1] == 500 && RECENT_WINDOWS[2] == 1000;
  }

  lemma SameSummaries(part: seq<Summary>, out: seq<Summary>, slot: int, own: seq<Row>, invalid: set<int>)
    requires AllTell(part, slot, own, invalid)
    requires forall s: Summary :: s.slot == slot ==> (s in part <==> s in out)
    ensures AllTell(out, slot, own, invalid)
  {
  }

  lemma SlotTable(rows: seq<Row>, invalid: set<int>, slot: int, own: seq<Row>)
    requires own == RowsOf(rows, slot)
    ensures var out := AllSummaries(SlotsOf(rows), rows, invalid);
            if own != [] && FirstMalformed(own).None? then AllTell(out, slot, own, invalid)
            else forall s :: s in out ==> s.slot != slot
  {
    var out := AllSummaries(SlotsOf(rows), rows, invalid);
    SlotsHaveRows(rows, slot);
    forall s: Summary | s.slot == slot
      ensures s in out <==> own != [] && s in SlotSummaries(slot, own, invalid)
    {
      SlotIsSummarised(SlotsOf(rows), rows, invalid, s);
    }
    if own != [] && FirstMalformed(own).None? {
      SlotSummariesTell(slot, own, invalid);
      SameSummaries(SlotSummaries(slot, own, invalid), out, slot, own, invalid);
    }
  }

  /** A slot whose rows are well shaped has a summary of each kind, which says of the rows it covers what they say;
      a slot without rows, or with a malformed one, has none. */
  lemma SlotTableExactly(table: seq<Row>, endHeight: Option<int>, invalid: set<int>, slot: int, own: seq<Row>)
    requires InKeyOrder(table) && IsEvidenceOf(own, table, endHeight, slot)
    ensures var out := TableOf(table, endHeight, invalid);
            if own != [] && forall r :: r in own ==> WellShaped(r) then AllTell(out, slot, own, invalid)
            else forall s :: s in out ==> s.slot != slot
  {
    EvidenceIsRowsOf(own, table, endHeight, slot);
    SlotTable(Summarised(table, endHeight), invalid, slot, own);
    NoMalformedRow(own);
    assert forall i :: 0 <= i < |own| ==> own[i] in own;
  }

  // ---- one row per key ----

  ghost predicate DistinctKeys(out: seq<Summary>) {
    forall i, j :: 0 <= i < j < |out| ==> out[i].slot != out[j].slot || out[i].kind != out[j].kind
  }

  lemma RecentKinds(slot: int, rows: seq<Row>, invalid: set<int>, sizes: seq<nat>)
    ensures |RecentSummaries(slot, rows, invalid, sizes)| == |sizes|
    ensures forall i :: 0 <= i < |sizes| ==> RecentSummaries(slot, rows, invalid, sizes)[i].kind == Recent(sizes[i])
  {
    RecentLength(slot, rows, invalid, sizes);
    forall i: nat | i < |sizes|
      ensures RecentSummaries(slot, rows, invalid, sizes)[i].kind == Recent(sizes[i])
    {
      RecentAt(slot, rows, invalid, sizes, i);
    }
  }

  lemma KindsAreDistinct(first: Summary, recent: seq<Summary>, sizes: seq<nat>)
    requires first.kind == Lifetime && |recent| == |sizes|
    requires forall i :: 0 <= i < |sizes| ==> recent[i].kind == Recent(sizes[i])
    requires forall i, j :: 0 <= i < j < |sizes| ==> sizes[i] != sizes[j]
    ensures DistinctKeys([first] + recent)
  {
  }

  lemma SlotKeysAreDistinct(slot: int, rows: seq<Row>, invalid: set<int>)
    ensures DistinctKeys(SlotSummaries(slot, rows, invalid))
  {
    var sizes := RECENT_WINDOWS;
    RecentKinds(slot, rows, invalid, sizes);
    KindsAreDistinct(SummaryOf(slot, Lifetime, rows, invalid), RecentSummaries(slot, rows, invalid, sizes), sizes);
  }

  lemma {:induction false} DistinctSlots(rows: seq<Row>)
    ensures forall i, j :: 0 <= i < j < |SlotsOf(rows)| ==> SlotsOf(rows)[i] != SlotsOf(rows)[j]
  {
    if rows != [] {
      DistinctSlots(rows[..|rows| - 1]);
    }
  }

  lemma EarlierSlots(slots: seq<int>, rows: seq<Row>, invalid: set<int>, slot: int)
    requires slot !in slots
    ensures forall s :: s in AllSummaries(slots, rows, invalid) ==> s.slot != slot
  {
    forall s | s in AllSummaries(slots, rows, invalid)
      ensures s.slot != slot
    {
      SlotIsSummarised(slots, rows, invalid, s);
    }
  }

  lemma OwnSlot(slot: int, rows: seq<Row>, invalid: set<int>)
    ensures forall s :: s in SlotSummaries(slot, rows, invalid) ==> s.slot == slot
  {
    forall s | s in SlotSummaries(slot, rows, invalid)
      ensures s.slot == slot
    {
      SummariesNameTheirSlot(slot, rows, invalid, s);
    }
  }

  lemma {:induction false} KeysAreDistinct(slots: seq<int>, rows: seq<Row>, invalid: set<int>)
    requires forall i, j :: 0 <= i < j < |slots| ==> slots[i] != slots[j]
    ensures DistinctKeys(AllSummaries(slots, rows, invalid))
  {
    if slots != [] {
      var n := |slots| - 1;
      var own := RowsOf(rows, slots[n]);
      KeysAreDistinct(slots[..n], rows, invalid);
      SlotKeysAreDistinct(slots[n], own, invalid);
      EarlierSlots(slots[..n], rows, invalid, slots[n]);
      OwnSlot(slots[n], own, invalid);
      KeysOfBoth(AllSummaries(slots[..n], rows, invalid), SlotSummaries(slots[n], own, invalid), slots[n]);
    }
  }

  lemma KeysOfBoth(a: seq<Summary>, b: seq<Summary>, slot: int)
    requires DistinctKeys(a) && DistinctKeys(b)
    requires forall s :: s in a ==> s.slot != slot
    requires forall s :: s in b ==> s.slot == slot
    ensures DistinctKeys(a + b)
  {
    forall i, j | 0 <= i < j < |a + b|
      ensures (a + b)[i].slot != (a + b)[j].slot || (a + b)[i].kind != (a + b)[j].kind
    {
      if i < |a| <= j {
        assert a[i] in a && b[j - |a|] in b;
      }
    }
  }

  /** No two summaries of the table share slot and kind. */
  lemma OneSummaryPerKey(table: seq<Row>, endHeight: Option<int>, invalid: set<int>)
    ensures DistinctKeys(TableOf(table, endHeight, invalid))
  {
    var rows := Summarised(table, endHeight);
    DistinctSlots(rows);
    KeysAreDistinct(SlotsOf(rows), rows, invalid);
  }

  // ---- the failures and the cursor ----

  /** The slot has a malformed row: the lowest is at `bad`, and its highest row of any shape is at `last`. */
  ghost predicate IsCorrupt(table: seq<Row>, endHeight: Option<int>, slot: int, last: int, bad: int) {
    && (exists r :: IsRead(r, table, endHeight, slot) && !WellShaped(r) && r.height == bad)
    && (forall r :: IsRead(r, table, endHeight, slot) && !WellShaped(r) ==> bad <= r.height)
    && (exists r :: IsRead(r, table, endHeight, slot) && r.height == last)
    && (forall r :: IsRead(r, table, endHeight, slot) ==> r.height <= last)
  }

  lemma {:induction false} FirstMalformedExactly(rows: seq<Row>)
    requires ByHeight(rows) && FirstMalformed(rows).Some?
    ensures exists r :: r in rows && !WellShaped(r) && r.height == FirstMalformed(rows).value
    ensures forall r :: r in rows && !WellShaped(r) ==> FirstMalformed(rows).value <= r.height
  {
    var n := |rows| - 1;
    assert rows == rows[..n] + [rows[n]];
    if FirstMalformed(rows[..n]).Some? {
      FirstMalformedExactly(rows[..n]);
      var r :| r in rows[..n] && !WellShaped(r) && r.height == FirstMalformed(rows[..n]).value;
      assert r in rows;
    } else {
      NoMalformedRow(rows[..n]);
      assert forall r :: r in rows[..n] ==> WellShaped(r);
      assert rows[n] in rows;
    }
  }

  lemma SlotRows(table: seq<Row>, endHeight: Option<int>, slot: int) returns (own: seq<Row>)
    requires InKeyOrder(table)
    ensures own == RowsOf(Summarised(table, endHeight), slot) && IsEvidenceOf(own, table, endHeight, slot)
  {
    var rows := Summarised(table, endHeight);
    own := RowsOf(rows, slot);
    FilterExactly(table, endHeight, None);
    RowsOfExactly(rows, slot);
    forall i, j | 0 <= i < j < |own|
      ensures own[i].height < own[j].height
    {
      assert own[i] in own && own[j] in own && KeyBefore(own[i], own[j]);
    }
  }

  /** The violation of a slot whose rows these are. */
  lemma OwnViolation(own: seq<Row>)
    requires ByHeight(own)
    ensures SlotViolation(own).None? <==> forall r :: r in own ==> WellShaped(r)
    ensures SlotViolation(own).Some? ==>
              var v := SlotViolation(own).value;
              && (exists r :: r in own && !WellShaped(r) && r.height == v.committedHeight)
              && (forall r :: r in own && !WellShaped(r) ==> v.committedHeight <= r.height)
              && (exists r :: r in own && r.height == v.sourceHeight)
              && (forall r :: r in own ==> r.height <= v.sourceHeight)
  {
    NoMalformedRow(own);
    assert forall i :: 0 <= i < |own| ==> own[i] in own;
    if FirstMalformed(own).Some? {
      FirstMalformedExactly(own);
      forall r | r in own
        ensures r.height <= own[|own| - 1].height
      {
        var k :| 0 <= k < |own| && own[k] == r;
      }
    }
  }

  lemma ViolationExactly(table: seq<Row>, endHeight: Option<int>, slot: int, last: int, bad: int)
    requires InKeyOrder(table)
    ensures SlotViolation(RowsOf(Summarised(table, endHeight), slot)) == Some(Violation(last, bad)) <==>
              IsCorrupt(table, endHeight, slot, last, bad)
  {
    var own := SlotRows(table, endHeight, slot);
    OwnViolation(own);
  }

  lemma {:induction false} SlotsIncrease(rows: seq<Row>)
    requires InKeyOrder(rows)
    ensures forall s :: s in SlotsOf(rows) ==> exists r :: r in rows && r.slot == s
    ensures forall i, j :: 0 <= i < j < |SlotsOf(rows)| ==> SlotsOf(rows)[i] < SlotsOf(rows)[j]
  {
    if rows != [] {
      var n := |rows| - 1;
      SlotsIncrease(rows[..n]);
      assert rows == rows[..n] + [rows[n]];
      assert rows[n] in rows;
      forall s | s in SlotsOf(rows[..n])
        ensures s <= rows[n].slot
      {
        var r :| r in rows[..n] && r.slot == s;
        var k :| 0 <= k < n && rows[k] == r;
        assert KeyBefore(rows[k], rows[n]);
      }
      forall i | 0 <= i < |SlotsOf(rows[..n])| && rows[n].slot !in SlotsOf(rows[..n])
        ensures SlotsOf(rows[..n])[i] < rows[n].slot
      {
        assert SlotsOf(rows[..n])[i] in SlotsOf(rows[..n]);
      }
    }
  }

  /** The violation of a slot of the list, and no later slot's violation has its height. */
  ghost predicate IsLastAt(slots: seq<int>, rows: seq<Row>, last: int, bad: int, slot: int) {
    && slot in slots && SlotViolation(RowsOf(rows, slot)) == Some(Violation(last, bad))
    && forall s :: s in slots && slot < s && SlotViolation(RowsOf(rows, s)).Some? ==>
         SlotViolation(RowsOf(rows, s)).value.sourceHeight != last
  }

  ghost predicate HasCause(slots: seq<int>, rows: seq<Row>, last: int, bad: int) {
    exists slot :: IsLastAt(slots, rows, last, bad, slot)
  }

  ghost predicate IsReported(rows: seq<Row>, slot: int, failures: map<int, int>) {
    SlotViolation(RowsOf(rows, slot)).Some? ==> SlotViolation(RowsOf(rows, slot)).value.sourceHeight in failures
  }

  ghost predicate AllCaused(slots: seq<int>, rows: seq<Row>, failures: map<int, int>) {
    forall h :: h in failures ==> HasCause(slots, rows, h, failures[h])
  }

  lemma CauseOneMore(slots: seq<int>, rows: seq<Row>, last: int, bad: int)
    requires slots != [] && forall i :: 0 <= i < |slots| - 1 ==> slots[i] < slots[|slots| - 1]
    ensures var n := |slots| - 1; var own := SlotViolation(RowsOf(rows, slots[n]));
            && (own == Some(Violation(last, bad)) ==> HasCause(slots, rows, last, bad))
            && (HasCause(slots[..n], rows, last, bad) && (own.Some? ==> own.value.sourceHeight != last) ==>
                  HasCause(slots, rows, last, bad))
  {
    var n := |slots| - 1;
    var own := SlotViolation(RowsOf(rows, slots[n]));
    assert slots == slots[..n] + [slots[n]];
    if own == Some(Violation(last, bad)) {
      assert IsLastAt(slots, rows, last, bad, slots[n]);
    }
    if HasCause(slots[..n], rows, last, bad) && (own.Some? ==> own.value.sourceHeight != last) {
      var slot :| IsLastAt(slots[..n], rows, last, bad, slot);
      assert IsLastAt(slots, rows, last, bad, slot);
    }
  }

  lemma {:induction false} FailureRowsOfSlots(slots: seq<int>, rows: seq<Row>)
    requires forall i, j :: 0 <= i < j < |slots| ==> slots[i] < slots[j]
    ensures AllCaused(slots, rows, FailureRows(Violations(slots, rows)))
    ensures forall s :: s in slots ==> IsReported(rows, s, FailureRows(Violations(slots, rows)))
  {
    if slots != [] {
      var n := |slots| - 1;
      FailureRowsOfSlots(slots[..n], rows);
      assert slots == slots[..n] + [slots[n]];
      var earlier, own := FailureRows(Violations(slots[..n], rows)), SlotViolation(RowsOf(rows, slots[n]));
      var failures := FailureRows(Violations(slots, rows));
      assert own.Some? ==> Violations(slots, rows)[..|Violations(slots, rows)| - 1] == Violations(slots[..n], rows);
      forall h | h in failures
        ensures HasCause(slots, rows, h, failures[h])
      {
        CauseOneMore(slots, rows, h, failures[h]);
        if !(own.Some? && own.value.sourceHeight == h) {
          assert h in earlier && HasCause(slots[..n], rows, h, earlier[h]);
        }
      }
      forall s | s in slots
        ensures IsReported(rows, s, failures)
      {
        assert s in slots[..n] ==> IsReported(rows, s, earlier);
      }
    }
  }

  ghost predicate IsLastCorruptAt(table: seq<Row>, endHeight: Option<int>, slot: int, last: int, bad: int) {
    && IsCorrupt(table, endHeight, slot, last, bad)
    && forall s, b :: slot < s ==> !IsCorrupt(table, endHeight, s, last, b)
  }

  /** The failure rows, by height: there is one for every height at which a corrupt slot ends, and it names the lowest
      malformed height of the greatest such slot. */
  lemma FailuresExactly(table: seq<Row>, endHeight: Option<int>)
    requires InKeyOrder(table)
    ensures var rows := Summarised(table, endHeight); var failures := FailureRows(Violations(SlotsOf(rows), rows));
            && (forall h :: h in failures ==>
                  exists slot :: IsLastCorruptAt(table, endHeight, slot, h, failures[h]))
            && (forall slot, last, bad :: IsCorrupt(table, endHeight, slot, last, bad) ==> last in failures)
  {
    var rows := Summarised(table, endHeight);
    var slots := SlotsOf(rows);
    var failures := FailureRows(Violations(slots, rows));
    FilterExactly(table, endHeight, None);
    SlotsIncrease(rows);
    FailureRowsOfSlots(slots, rows);
    forall h | h in failures
      ensures exists slot :: IsLastCorruptAt(table, endHeight, slot, h, failures[h])
    {
      assert HasCause(slots, rows, h, failures[h]);
      var slot :| IsLastAt(slots, rows, h, failures[h], slot);
      ViolationExactly(table, endHeight, slot, h, failures[h]);
      forall s, b | slot < s
        ensures !IsCorrupt(table, endHeight, s, h, b)
      {
        ViolationExactly(table, endHeight, s, h, b);
        SlotsHaveRows(rows, s);
      }
      assert IsLastCorruptAt(table, endHeight, slot, h, failures[h]);
    }
    forall slot, last, bad | IsCorrupt(table, endHeight, slot, last, bad)
      ensures last in failures
    {
      ViolationExactly(table, endHeight, slot, last, bad);
      SlotsHaveRows(rows, slot);
      assert IsReported(rows, slot, failures);
    }
  }

  lemma {:induction false} MaxLastHeightExactly(slots: seq<int>, rows: seq<Row>)
    ensures var max := MaxLastHeight(slots, rows);
            && 0 <= max
            && (forall s :: s in slots ==> LastHeight(RowsOf(rows, s)) <= max)
            && (max == 0 || exists s :: s in slots && LastHeight(RowsOf(rows, s)) == max)
  {
    if slots != [] {
      var n := |slots| - 1;
      MaxLastHeightExactly(slots[..n], rows);
      assert slots == slots[..n] + [slots[n]];
      var earlier := MaxLastHeight(slots[..n], rows);
      if earlier != 0 && MaxLastHeight(slots, rows) == earlier {
        var s :| s in slots[..n] && LastHeight(RowsOf(rows, s)) == earlier;
        assert s in slots;
      }
      assert slots[n] in slots;
    }
  }

  /** A run without an end leaves the cursor at the greatest height of any row, at least 0. */
  lemma CursorExactly(table: seq<Row>)
    requires InKeyOrder(table)
    ensures var rows := Summarised(table, None); var max := MaxLastHeight(SlotsOf(rows), rows);
            && 0 <= max && (forall r :: r in table ==> r.height <= max)
            && (max == 0 || exists r :: r in table && r.height == max)
  {
    var rows := Summarised(table, None);
    var slots := SlotsOf(rows);
    var max := MaxLastHeight(slots, rows);
    MaxLastHeightExactly(slots, rows);
    forall r | r in table
      ensures r.height <= max
    {
      var own := SlotRows(table, None, r.slot);
      assert IsRead(r, table, None, r.slot);
      SlotsHaveRows(rows, r.slot);
      var k :| 0 <= k < |own| && own[k] == r;
    }
    if max != 0 {
      var s :| s in slots && LastHeight(RowsOf(rows, s)) == max;
      var own := SlotRows(table, None, s);
      assert own[|own| - 1] in own;
    }
  }
}
