/** The beacon window of a draw, assessed from the fetched rows only. */
module DrawBeacon {
  import opened Wrappers
  import opened Hex
  import opened Sorting
  import opened DrawFraming

  /** A fetched row; the hash or the attributed proposer slot may not be indexed. */
  datatype Block = Block(height: nat, hash: Option<string>, proposer: Option<nat>)

  datatype Assessment = Assessment(entries: seq<Entry>, usable: nat, distinct: nat, excludedTarget: nat, missing: int)

  /** The rows inside the window by height; of several rows at a height the last one. */
  function ByHeight(blocks: seq<Block>, start: nat, end: nat): map<nat, Block> {
    if blocks == [] then map[]
    else
      var b := blocks[|blocks| - 1];
      var earlier := ByHeight(blocks[..|blocks| - 1], start, end);
      if start <= b.height <= end then earlier[b.height := b] else earlier
  }

  /** The row has a well-formed block-id hash and a final attribution. */
  predicate IsComplete(b: Block) {
    b.hash.Some? && Hex32(b.hash.value).Some? && b.proposer.Some?
  }

  predicate Complete(view: map<nat, Block>, h: nat) {
    h in view && IsComplete(view[h])
  }

  function EntryOf(b: Block): Entry
    requires IsComplete(b)
  {
    Entry(b.height, b.proposer.value, Hex32(b.hash.value).value)
  }

  datatype Tally = Tally(entries: seq<Entry>, excludedTarget: nat, present: nat)

  function AddBlock(t: Tally, b: Block, target: nat): Tally {
    if !IsComplete(b) then t
    else if b.proposer.value == target then t.(present := t.present + 1, excludedTarget := t.excludedTarget + 1)
    else t.(present := t.present + 1, entries := t.entries + [EntryOf(b)])
  }

  /** The complete rows at these heights, in this order. */
  function Over(view: map<nat, Block>, target: nat, hs: seq<nat>): Tally {
    if hs == [] then Tally([], 0, 0)
    else
      var earlier := Over(view, target, hs[..|hs| - 1]);
      var h := hs[|hs| - 1];
      if h in view then AddBlock(earlier, view[h], target) else earlier
  }

  function Heights(start: nat, end: nat): (hs: seq<nat>)
    requires start <= end
    ensures |hs| == end - start + 1
  {
    seq(end - start + 1, i requires 0 <= i < end - start + 1 => start + i)
  }

  function Slots(entries: seq<Entry>): set<nat> {
    set e | e in entries :: e.slot
  }

  function Assess(view: map<nat, Block>, start: nat, end: nat, target: nat): Assessment
    requires start <= end
  {
    var t := Over(view, target, Heights(start, end));
    Assessment(t.entries, |t.entries|, |Slots(t.entries)|, t.excludedTarget, end - start + 1 - t.present)
  }

  predicate Smaller(a: nat, b: nat) {
    a < b
  }

  lemma SmallerIsStrict()
    ensures StrictOrder(Smaller)
  {
  }

  /** The heights that have a row. */
  function WithRow(view: map<nat, Block>, hs: seq<nat>): seq<nat> {
    if hs == [] then []
    else
      var earlier := WithRow(view, hs[..|hs| - 1]);
      if hs[|hs| - 1] in view then earlier + [hs[|hs| - 1]] else earlier
  }

  lemma {:induction false} OverSkipsGaps(view: map<nat, Block>, target: nat, hs: seq<nat>)
    ensures Over(view, target, WithRow(view, hs)) == Over(view, target, hs)
  {
    if hs != [] {
      OverSkipsGaps(view, target, hs[..|hs| - 1]);
      var earlier := WithRow(view, hs[..|hs| - 1]);
      assert (earlier + [hs[|hs| - 1]])[..|earlier|] == earlier;
    }
  }

  lemma {:induction false} WithRowExactly(view: map<nat, Block>, hs: seq<nat>)
    requires Increasing(hs, Smaller)
    ensures Increasing(WithRow(view, hs), Smaller)
    ensures forall h :: h in WithRow(view, hs) <==> h in hs && h in view
  {
    if hs != [] {
      var n := |hs| - 1;
      WithRowExactly(view, hs[..n]);
      assert hs == hs[..n] + [hs[n]];
      forall i | 0 <= i < |WithRow(view, hs[..n])|
        ensures Smaller(WithRow(view, hs[..n])[i], hs[n])
      {
        var h := WithRow(view, hs[..n])[i];
        assert h in WithRow(view, hs[..n]);
        var k :| 0 <= k < n && hs[k] == h;
      }
    }
  }

  lemma HeightsExactly(start: nat, end: nat)
    requires start <= end
    ensures Increasing(Heights(start, end), Smaller)
    ensures forall h :: h in Heights(start, end) <==> start <= h <= end
  {
    forall h | start <= h <= end
      ensures h in Heights(start, end)
    {
      assert Heights(start, end)[h - start] == h;
    }
  }

  lemma {:induction false} ByHeightExactly(blocks: seq<Block>, start: nat, end: nat)
    ensures forall h :: h in ByHeight(blocks, start, end) ==>
              start <= h <= end && ByHeight(blocks, start, end)[h].height == h
  {
    if blocks != [] {
      ByHeightExactly(blocks[..|blocks| - 1], start, end);
    }
  }

  /** The rows that exist, sorted by height, tell the same as every height of the window in turn. */
  lemma SortedRowsSuffice(view: map<nat, Block>, order: seq<nat>, start: nat, end: nat, target: nat)
    requires start <= end && Distinct(order)
    requires forall h :: h in order <==> h in view
    requires forall h :: h in view ==> start <= h <= end
    ensures Over(view, target, Sort(order, Smaller)) == Over(view, target, Heights(start, end))
  {
    SmallerIsStrict();
    SortIncreases(order, Smaller);
    HeightsExactly(start, end);
    WithRowExactly(view, Heights(start, end));
    OverSkipsGaps(view, target, Heights(start, end));
    IncreasingDetermines(Sort(order, Smaller), WithRow(view, Heights(start, end)), Smaller);
  }

  /** Collect the rows by height, then visit the collected rows only, in height order. */
  method AssessBeacon(blocks: seq<Block>, start: nat, end: nat, target: nat) returns (a: Assessment)
    requires start <= end
    ensures a == Assess(ByHeight(blocks, start, end), start, end, target)
  {
    var byHeight: map<nat, Block> := map[];
    var order: seq<nat> := [];
    for i := 0 to |blocks|
      invariant byHeight == ByHeight(blocks[..i], start, end)
      invariant Distinct(order) && forall h :: h in order <==> h in byHeight
    {
      var b := blocks[i];
      assert blocks[..i + 1][..i] == blocks[..i];
      if start <= b.height <= end {
        if b.height !in byHeight {
          order := order + [b.height];
        }
        byHeight := byHeight[b.height := b];
      }
    }
    assert blocks[..|blocks|] == blocks;
    ByHeightExactly(blocks, start, end);
    SortedRowsSuffice(byHeight, order, start, end, target);
    var sorted := Sort(order, Smaller);
    SortPermutes(order, Smaller);
    var t := Tally([], 0, 0);
    for i := 0 to |sorted|
      invariant t == Over(byHeight, target, sorted[..i])
    {
      assert sorted[..i + 1][..i] == sorted[..i];
      assert sorted[i] in sorted;
      t := AddBlock(t, byHeight[sorted[i]], target);
    }
    assert sorted[..|sorted|] == sorted;
    a := Assessment(t.entries, |t.entries|, |Slots(t.entries)|, t.excludedTarget, end - start + 1 - t.present);
  }

  // ---- what an assessment says ----

  lemma {:induction false} TallyAddsUp(view: map<nat, Block>, target: nat, hs: seq<nat>)
    ensures var t := Over(view, target, hs);
            && |t.entries| + t.excludedTarget == t.present <= |hs|
            && (t.present == |hs| <==> forall h :: h in hs ==> Complete(view, h))
  {
    if hs != [] {
      var n := |hs| - 1;
      TallyAddsUp(view, target, hs[..n]);
      assert hs == hs[..n] + [hs[n]];
      assert hs[n] in hs;
    }
  }

  /** Nothing is missing exactly when every height of the window has a complete row. */
  lemma NothingMissingExactly(view: map<nat, Block>, start: nat, end: nat, target: nat)
    requires start <= end
    ensures var a := Assess(view, start, end, target);
            && 0 <= a.missing
            && a.usable + a.excludedTarget + a.missing == end - start + 1
            && (a.missing == 0 <==> forall h :: start <= h <= end ==> Complete(view, h))
  {
    HeightsExactly(start, end);
    TallyAddsUp(view, target, Heights(start, end));
    if forall h :: start <= h <= end ==> Complete(view, h) {
      assert forall h :: h in Heights(start, end) ==> Complete(view, h);
    }
    if forall h :: h in Heights(start, end) ==> Complete(view, h) {
      assert forall h: nat :: start <= h <= end ==> h in Heights(start, end);
    }
  }

  ghost predicate RowsKnowTheirHeight(view: map<nat, Block>) {
    forall h :: h in view ==> view[h].height == h
  }

  predicate EarlierEntry(a: Entry, b: Entry) {
    a.height < b.height
  }

  lemma {:induction false} EntriesOver(view: map<nat, Block>, target: nat, hs: seq<nat>)
    requires RowsKnowTheirHeight(view) && Increasing(hs, Smaller)
    ensures var t := Over(view, target, hs);
            && Increasing(t.entries, EarlierEntry)
            && forall e :: e in t.entries <==>
                 e.height in hs && Complete(view, e.height) && e == EntryOf(view[e.height]) && e.slot != target
  {
    if hs != [] {
      var n := |hs| - 1;
      EntriesOver(view, target, hs[..n]);
      assert hs == hs[..n] + [hs[n]];
      var earlier := Over(view, target, hs[..n]).entries;
      forall i | 0 <= i < |earlier|
        ensures earlier[i].height < hs[n]
      {
        assert earlier[i] in earlier;
        var k :| 0 <= k < n && hs[k] == earlier[i].height;
        assert Smaller(hs[k], hs[n]);
      }
    }
  }

  /** The entries are the complete rows of other slots, one for each such height, in height order. */
  lemma EntriesExactly(view: map<nat, Block>, start: nat, end: nat, target: nat)
    requires start <= end && RowsKnowTheirHeight(view)
    ensures var a := Assess(view, start, end, target);
            && Increasing(a.entries, EarlierEntry)
            && forall e :: e in a.entries <==>
                 && start <= e.height <= end
                 && Complete(view, e.height) && e == EntryOf(view[e.height]) && e.slot != target
  {
    HeightsExactly(start, end);
    EntriesOver(view, target, Heights(start, end));
  }
}
