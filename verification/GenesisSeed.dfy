/** What seeding the genesis validator set into an empty table leaves behind. */
module GenesisSeed {
  import opened Wrappers
  import opened TemporalMap

  ghost predicate Eligible(g: GenesisSlot) {
    g.active && g.slot.Some? && g.address.HexAddress?
  }

  /** Entry `k` gets a window: no earlier entry that got one has its slot or its address. */
  ghost predicate Founds(slots: seq<GenesisSlot>, k: nat)
    requires k < |slots|
  {
    Eligible(slots[k]) && forall j: nat | j < k && Founds(slots, j) ::
      slots[j].slot != slots[k].slot && slots[j].address != slots[k].address
  }

  /** Entry `k` shares its slot or its address, but not both, with an earlier entry that got a window. */
  ghost predicate Collides(slots: seq<GenesisSlot>, k: nat)
    requires k < |slots|
  {
    Eligible(slots[k])
    && exists j: nat | j < k && Founds(slots, j) ::
         (slots[j].slot == slots[k].slot) != (slots[j].address == slots[k].address)
  }

  ghost predicate Names(g: GenesisSlot, slot: int, address: Address) {
    g.active && g.slot == Some(slot) && g.address == HexAddress(address)
  }

  /** What the last entry of a slot and address that gives a field says. */
  ghost predicate LastGiven<T(!new)>(slots: seq<GenesisSlot>, slot: int, address: Address,
                                     field: GenesisSlot -> Option<T>, value: Option<T>)
  {
    if value.None? then forall j :: 0 <= j < |slots| && Names(slots[j], slot, address) ==> field(slots[j]).None?
    else exists j :: IsLastGiver(slots, slot, address, field, j) && field(slots[j]) == value
  }

  ghost predicate IsLastGiver<T(!new)>(slots: seq<GenesisSlot>, slot: int, address: Address,
                                       field: GenesisSlot -> Option<T>, j: int)
  {
    && 0 <= j < |slots| && Names(slots[j], slot, address) && field(slots[j]).Some?
    && forall i :: j < i < |slots| && Names(slots[i], slot, address) ==> field(slots[i]).None?
  }

  function OperatorField(g: GenesisSlot): Option<string> { g.operator }

  function PowerField(g: GenesisSlot): Option<int> { g.power }

  /** The window of an entry: open from height 1 on, with what the last entry of the pair that names an
      operator and a power says. */
  ghost predicate FoundedBy(w: Window, slots: seq<GenesisSlot>, k: nat)
    requires k < |slots|
  {
    && Founds(slots, k) && Names(slots[k], w.slot, w.address)
    && LastGiven(slots, w.slot, w.address, OperatorField, w.operator)
    && LastGiven(slots, w.slot, w.address, PowerField, w.power)
    && w.updateHeight.None? && w.from == 1 && w.to.None? && w.openedBy == Genesis && w.closedBy.None?
  }

  ghost predicate HasFounder(w: Window, slots: seq<GenesisSlot>) {
    exists k: nat | k < |slots| :: FoundedBy(w, slots, k)
  }

  ghost predicate HasWindow(t: Table, slot: int, address: Address) {
    exists i :: 0 <= i < |t| && t[i].slot == slot && t[i].address == address
  }

  ghost predicate KeepsWindow(t: Table, g: GenesisSlot) {
    g.slot.Some? && g.address.HexAddress? && HasWindow(t, g.slot.value, g.address.address)
  }

  ghost predicate AllFounded(t: Table, slots: seq<GenesisSlot>) {
    forall i :: 0 <= i < |t| ==> HasFounder(t[i], slots)
  }

  ghost predicate AllKept(t: Table, slots: seq<GenesisSlot>) {
    forall k: nat | k < |slots| :: Founds(slots, k) ==> KeepsWindow(t, slots[k])
  }

  ghost predicate Apart(t: Table) {
    forall i, j :: 0 <= i < j < |t| ==> t[i].slot != t[j].slot && t[i].address != t[j].address
  }

  /** The windows are those of the founding entries and no others. */
  ghost predicate SeededBy(t: Table, slots: seq<GenesisSlot>) {
    AllFounded(t, slots) && AllKept(t, slots) && Apart(t)
  }

  /** The failure an entry is recorded with, at the height below every block. */
  ghost predicate EntryFails(g: GenesisSlot, collides: bool, kind: FailureKind) {
    match kind
    case GenesisMalformed => g.active && g.slot.None?
    case InvalidConsensusAddress => g.active && g.slot.Some? && !g.address.HexAddress?
    case TemporalWindowConflict => collides
    case _ => false
  }

  ghost predicate FailsWith(slots: seq<GenesisSlot>, k: nat, kind: FailureKind)
    requires k < |slots|
  {
    EntryFails(slots[k], Collides(slots, k), kind)
  }

  ghost predicate AddsFailures(before: set<Failure>, after: set<Failure>, slots: seq<GenesisSlot>) {
    forall f :: f in after <==> f in before || FailsFor(slots, f)
  }

  ghost predicate FailsFor(slots: seq<GenesisSlot>, f: Failure) {
    f == Failure(f.kind, 0, None, None) && exists k: nat | k < |slots| :: FailsWith(slots, k, f.kind)
  }

  // ---- prefixes ----

  lemma {:induction false} FoundsInPrefix(slots: seq<GenesisSlot>, n: nat, k: nat)
    requires k < n <= |slots|
    ensures Founds(slots[..n], k) <==> Founds(slots, k)
  {
    forall j: nat | j < k
      ensures Founds(slots[..n], j) <==> Founds(slots, j)
    {
      FoundsInPrefix(slots, n, j);
    }
  }

  lemma CollidesInPrefix(slots: seq<GenesisSlot>, n: nat, k: nat)
    requires k < n <= |slots|
    ensures Collides(slots[..n], k) <==> Collides(slots, k)
  {
    forall j: nat | j < n
      ensures Founds(slots[..n], j) <==> Founds(slots, j)
    {
      FoundsInPrefix(slots, n, j);
    }
    if Collides(slots[..n], k) {
      var j: nat :| j < k && Founds(slots[..n], j)
        && (slots[..n][j].slot == slots[..n][k].slot) != (slots[..n][j].address == slots[..n][k].address);
      assert Founds(slots, j);
    }
    if Collides(slots, k) {
      var j: nat :| j < k && Founds(slots, j)
        && (slots[j].slot == slots[k].slot) != (slots[j].address == slots[k].address);
      assert Founds(slots[..n], j);
    }
  }

  // ---- one opening at height 1 ----

  ghost predicate AllGenesis(t: Table) {
    (forall i :: 0 <= i < |t| ==> t[i].from == 1 && t[i].to.None?) && Apart(t)
  }

  predicate RefreshedAt(t: Table, t': Table, o: Opening, i: int) {
    0 <= i < |t| && t[i].slot == o.slot && t[i].address == o.address && t' == t[i := Refresh(t[i], o)]
  }

  lemma {:induction false} EndingAtOne(t: Table, o: Opening, i: nat)
    requires AllGenesis(t) && o.from == 1 && i <= |t|
    ensures var (t', outcome) := EndSelected(t, EndingFor(o), i, 0);
            && t' == t
            && (outcome == Closed(0) <==> forall k :: i <= k < |t| ==> t[k].slot != o.slot)
            && (outcome.Closed? <==> outcome == Closed(0))
    decreases |t| - i
  {
    if i < |t| && t[i].slot != o.slot {
      EndingAtOne(t, o, i + 1);
    }
  }

  /** An opening at height 1 over genesis windows refreshes the window of its slot and address, conflicts with one
      that shares only one of the two, and otherwise adds its own. */
  lemma OpeningAtOne(t: Table, o: Opening)
    requires AllGenesis(t) && o.from == 1
    ensures var (t', outcome) := OpenWindow(t, o);
            if HasWindow(t, o.slot, o.address)
            then outcome.Refreshed? && exists i :: RefreshedAt(t, t', o, i)
            else if exists i :: 0 <= i < |t| && (t[i].slot == o.slot || t[i].address == o.address)
            then !outcome.Ok() && t' == t
            else outcome.Created? && t' == t + [NewWindow(o)]
  {
    EndingAtOne(t, o, 0);
    var same := FindWindow(t, SameWindow(o));
    assert forall i :: 0 <= i < |t| ==>
             (Matches(t[i], SameWindow(o)) <==> t[i].slot == o.slot && t[i].address == o.address);
    assert forall i :: 0 <= i < |t| ==>
             (Matches(t[i], Query(None, Some(o.address), o.from)) <==> t[i].address == o.address);
    if same.Some? {
      assert RefreshedAt(t, OpenWindow(t, o).0, o, same.value);
    }
  }

  // ---- the seed, entry by entry ----

  lemma LastGivenOneMore<T(!new)>(slots: seq<GenesisSlot>, slot: int, address: Address,
                                  field: GenesisSlot -> Option<T>, value: Option<T>)
    requires slots != [] && LastGiven(slots[..|slots| - 1], slot, address, field, value)
    ensures var g := slots[|slots| - 1];
            LastGiven(slots, slot, address, field, if Names(g, slot, address) then field(g).Or(value) else value)
  {
    var n := |slots| - 1;
    if Names(slots[n], slot, address) && field(slots[n]).Some? {
      assert IsLastGiver(slots, slot, address, field, n);
    } else if value.Some? {
      var j :| IsLastGiver(slots[..n], slot, address, field, j) && field(slots[..n][j]) == value;
      assert forall i :: 0 <= i < n ==> slots[..n][i] == slots[i];
      assert IsLastGiver(slots, slot, address, field, j);
    }
  }

  /** What one more entry makes of a window. */
  function AfterEntry(w: Window, g: GenesisSlot): Window {
    if g.active && g.slot == Some(w.slot) && g.address == HexAddress(w.address)
    then w.(operator := g.operator.Or(w.operator), power := g.power.Or(w.power))
    else w
  }

  lemma FounderOneMore(w: Window, slots: seq<GenesisSlot>)
    requires slots != [] && HasFounder(w, slots[..|slots| - 1])
    ensures HasFounder(AfterEntry(w, slots[|slots| - 1]), slots)
  {
    var n := |slots| - 1;
    var k: nat :| k < n && FoundedBy(w, slots[..n], k);
    FoundsInPrefix(slots, n, k);
    LastGivenOneMore(slots, w.slot, w.address, OperatorField, w.operator);
    LastGivenOneMore(slots, w.slot, w.address, PowerField, w.power);
    assert FoundedBy(AfterEntry(w, slots[n]), slots, k);
  }

  ghost predicate SamePairs(t: Table, t': Table) {
    |t| <= |t'| && forall i :: 0 <= i < |t| ==> t'[i].slot == t[i].slot && t'[i].address == t[i].address
  }

  lemma WindowKept(t: Table, t': Table, g: GenesisSlot)
    requires KeepsWindow(t, g) && SamePairs(t, t')
    ensures KeepsWindow(t', g)
  {
    var i :| 0 <= i < |t| && t[i].slot == g.slot.value && t[i].address == g.address.address;
    assert t'[i].slot == g.slot.value;
  }

  lemma KeptAt(t: Table, slots: seq<GenesisSlot>, k: nat)
    requires AllKept(t, slots) && k < |slots| && Founds(slots, k)
    ensures KeepsWindow(t, slots[k])
  {
  }

  lemma FoundersKeepWindows(t: Table, t': Table, slots: seq<GenesisSlot>, n: nat, k: nat)
    requires k < n <= |slots| && AllKept(t, slots[..n]) && Founds(slots, k) && SamePairs(t, t')
    ensures KeepsWindow(t', slots[k])
  {
    FoundsInPrefix(slots, n, k);
    KeptAt(t, slots[..n], k);
    WindowKept(t, t', slots[k]);
  }

  ghost predicate SharesOne(w: Window, g: GenesisSlot) {
    (g.slot == Some(w.slot)) != (g.address == HexAddress(w.address))
  }

  ghost predicate SharesAny(w: Window, g: GenesisSlot) {
    g.slot == Some(w.slot) || g.address == HexAddress(w.address)
  }

  /** Every earlier founding entry has its window, and every window its founding entry. */
  lemma WindowOfFounder(t: Table, slots: seq<GenesisSlot>, k: nat) returns (i: nat)
    requires k < |slots| - 1 && SeededBy(t, slots[..|slots| - 1]) && Founds(slots, k)
    ensures i < |t| && slots[k].slot == Some(t[i].slot) && slots[k].address == HexAddress(t[i].address)
  {
    FoundersKeepWindows(t, t, slots, |slots| - 1, k);
    i :| 0 <= i < |t| && t[i].slot == slots[k].slot.value && t[i].address == slots[k].address.address;
  }

  lemma FounderOfWindow(t: Table, slots: seq<GenesisSlot>, i: nat) returns (k: nat)
    requires i < |t| && slots != [] && SeededBy(t, slots[..|slots| - 1])
    ensures k < |slots| - 1 && Founds(slots, k)
    ensures slots[k].slot == Some(t[i].slot) && slots[k].address == HexAddress(t[i].address)
  {
    var n := |slots| - 1;
    assert HasFounder(t[i], slots[..n]);
    k :| k < n && FoundedBy(t[i], slots[..n], k);
    FoundsInPrefix(slots, n, k);
  }

  /** An entry founds a window exactly when no window has its slot or its address yet. */
  lemma FoundsExactly(t: Table, slots: seq<GenesisSlot>)
    requires slots != [] && SeededBy(t, slots[..|slots| - 1]) && Eligible(slots[|slots| - 1])
    ensures Founds(slots, |slots| - 1) <==> forall i :: 0 <= i < |t| ==> !SharesAny(t[i], slots[|slots| - 1])
  {
    var n := |slots| - 1;
    if i: nat :| i < |t| && SharesAny(t[i], slots[n]) {
      var k := FounderOfWindow(t, slots, i);
      assert Founds(slots, k);
    } else if !Founds(slots, n) {
      var k: nat :| k < n && Founds(slots, k)
                    && !(slots[k].slot != slots[n].slot && slots[k].address != slots[n].address);
      var i := WindowOfFounder(t, slots, k);
      assert SharesAny(t[i], slots[n]);
    }
  }

  /** An entry collides exactly when a window has its slot or its address, and not both. */
  lemma CollidesExactly(t: Table, slots: seq<GenesisSlot>)
    requires slots != [] && SeededBy(t, slots[..|slots| - 1]) && Eligible(slots[|slots| - 1])
    ensures Collides(slots, |slots| - 1) <==> exists i :: 0 <= i < |t| && SharesOne(t[i], slots[|slots| - 1])
  {
    var n := |slots| - 1;
    if i: nat :| i < |t| && SharesOne(t[i], slots[n]) {
      var k := FounderOfWindow(t, slots, i);
      assert Founds(slots, k);
    } else if Collides(slots, n) {
      var k: nat :| k < n && Founds(slots, k)
                    && (slots[k].slot == slots[n].slot) != (slots[k].address == slots[n].address);
      var i := WindowOfFounder(t, slots, k);
      assert SharesOne(t[i], slots[n]);
    }
  }

  function SeedOpening(g: GenesisSlot): Opening
    requires g.slot.Some? && g.address.HexAddress?
  {
    Opening(g.slot.value, g.operator, g.address.address, g.power, None, 1, Genesis)
  }

  /** One more entry over genesis windows: the window it names is refreshed, every other is kept, and its own is
      added at the end if none has its slot or its address. */
  ghost predicate WindowsAfter(t: Table, t': Table, g: GenesisSlot, founds: bool) {
    && |t'| == |t| + (if founds then 1 else 0)
    && (forall i :: 0 <= i < |t| ==> t'[i] == AfterEntry(t[i], g))
    && (founds ==> Eligible(g) && t'[|t|] == NewWindow(SeedOpening(g)))
  }

  ghost predicate NoneShares(t: Table, g: GenesisSlot) {
    forall i :: 0 <= i < |t| ==> !SharesAny(t[i], g)
  }

  ghost predicate SomeSharesOne(t: Table, g: GenesisSlot) {
    exists i :: 0 <= i < |t| && SharesOne(t[i], g)
  }

  lemma EntryAtOne(t: Table, g: GenesisSlot)
    requires AllGenesis(t) && Eligible(g)
    ensures var (t', outcome) := OpenWindow(t, SeedOpening(g));
            && WindowsAfter(t, t', g, NoneShares(t, g))
            && (outcome.Created? <==> NoneShares(t, g))
            && (outcome.Ok() <==> !SomeSharesOne(t, g))
  {
    var o := SeedOpening(g);
    OpeningAtOne(t, o);
    assert forall i :: 0 <= i < |t| ==> (SharesAny(t[i], g) <==> t[i].slot == o.slot || t[i].address == o.address);
    if HasWindow(t, o.slot, o.address) {
      var i :| RefreshedAt(t, OpenWindow(t, o).0, o, i);
      assert SharesAny(t[i], g);
      assert forall j :: 0 <= j < |t| && j != i ==> t[j].slot != t[i].slot && t[j].address != t[i].address;
    }
  }

  lemma SeededAreGenesis(t: Table, slots: seq<GenesisSlot>)
    requires SeededBy(t, slots)
    ensures AllGenesis(t)
  {
    forall i | 0 <= i < |t|
      ensures t[i].from == 1 && t[i].to.None?
    {
      assert HasFounder(t[i], slots);
    }
  }

  lemma NotNamedBefore<T(!new)>(slots: seq<GenesisSlot>, field: GenesisSlot -> Option<T>)
    requires slots != [] && Founds(slots, |slots| - 1)
    ensures var g := slots[|slots| - 1];
            LastGiven(slots, g.slot.value, g.address.address, field, field(g))
  {
  }

  lemma NewWindowIsFounded(slots: seq<GenesisSlot>)
    requires slots != [] && Founds(slots, |slots| - 1)
    ensures HasFounder(NewWindow(SeedOpening(slots[|slots| - 1])), slots)
  {
    var n := |slots| - 1;
    NotNamedBefore(slots, OperatorField);
    NotNamedBefore(slots, PowerField);
    assert FoundedBy(NewWindow(SeedOpening(slots[n])), slots, n);
  }

  lemma FoundedOneMore(t: Table, t': Table, slots: seq<GenesisSlot>)
    requires slots != [] && AllFounded(t, slots[..|slots| - 1])
    requires WindowsAfter(t, t', slots[|slots| - 1], Founds(slots, |slots| - 1))
    ensures AllFounded(t', slots)
  {
    forall i | 0 <= i < |t'|
      ensures HasFounder(t'[i], slots)
    {
      if i < |t| {
        FounderOneMore(t[i], slots);
      } else {
        NewWindowIsFounded(slots);
      }
    }
  }

  lemma AfterEntryKeepsPairs(t: Table, t': Table, g: GenesisSlot, founds: bool)
    requires WindowsAfter(t, t', g, founds)
    ensures SamePairs(t, t')
    ensures founds ==> KeepsWindow(t', g)
  {
    if founds {
      assert t'[|t|].slot == g.slot.value && t'[|t|].address == g.address.address;
    }
  }

  lemma KeptOneMore(t: Table, t': Table, slots: seq<GenesisSlot>)
    requires slots != [] && AllKept(t, slots[..|slots| - 1])
    requires WindowsAfter(t, t', slots[|slots| - 1], Founds(slots, |slots| - 1))
    ensures AllKept(t', slots)
  {
    var n := |slots| - 1;
    AfterEntryKeepsPairs(t, t', slots[n], Founds(slots, n));
    KeptBefore(t, t', slots, n);
  }

  lemma KeptBefore(t: Table, t': Table, slots: seq<GenesisSlot>, n: nat)
    requires |slots| == n + 1 && AllKept(t, slots[..n]) && SamePairs(t, t')
    requires Founds(slots, n) ==> KeepsWindow(t', slots[n])
    ensures AllKept(t', slots)
  {
    forall k: nat | k < |slots| && Founds(slots, k)
      ensures KeepsWindow(t', slots[k])
    {
      if k < n {
        FoundersKeepWindows(t, t', slots, n, k);
      }
    }
  }

  lemma ApartOneMore(t: Table, t': Table, g: GenesisSlot, founds: bool)
    requires Apart(t) && WindowsAfter(t, t', g, founds)
    requires founds ==> NoneShares(t, g)
    ensures Apart(t')
  {
    forall i, j | 0 <= i < j < |t'|
      ensures t'[i].slot != t'[j].slot && t'[i].address != t'[j].address
    {
      assert j == |t| ==> !SharesAny(t[i], g);
    }
  }

  ghost predicate FailsSomehow(g: GenesisSlot, collides: bool) {
    (g.active && (g.slot.None? || !g.address.HexAddress?)) || collides
  }

  ghost predicate Fails(slots: seq<GenesisSlot>, k: nat)
    requires k < |slots|
  {
    FailsSomehow(slots[k], Collides(slots, k))
  }

  ghost function Founding(slots: seq<GenesisSlot>): set<nat> {
    set k: nat | k < |slots| && Founds(slots, k)
  }

  ghost function Failing(slots: seq<GenesisSlot>): set<nat> {
    set k: nat | k < |slots| && Fails(slots, k)
  }

  lemma FoundingOneMore(slots: seq<GenesisSlot>)
    requires slots != []
    ensures |Founding(slots)| == |Founding(slots[..|slots| - 1])| + if Founds(slots, |slots| - 1) then 1 else 0
  {
    var n := |slots| - 1;
    forall k: nat
      ensures k in Founding(slots) <==> k in Founding(slots[..n]) || (k == n && Founds(slots, n))
    {
      if k < n {
        FoundsInPrefix(slots, n, k);
      }
    }
    assert Founding(slots) == Founding(slots[..n]) + if Founds(slots, n) then {n} else {};
  }

  lemma FailingOneMore(slots: seq<GenesisSlot>)
    requires slots != []
    ensures |Failing(slots)| == |Failing(slots[..|slots| - 1])| + if Fails(slots, |slots| - 1) then 1 else 0
  {
    var n := |slots| - 1;
    forall k: nat
      ensures k in Failing(slots) <==> k in Failing(slots[..n]) || (k == n && Fails(slots, n))
    {
      if k < n {
        CollidesInPrefix(slots, n, k);
      }
    }
    assert Failing(slots) == Failing(slots[..n]) + if Fails(slots, n) then {n} else {};
  }

  lemma FailsForOneMore(slots: seq<GenesisSlot>, f: Failure)
    requires slots != []
    ensures var n := |slots| - 1;
            FailsFor(slots, f) <==>
              FailsFor(slots[..n], f) || (FailsWith(slots, n, f.kind) && f == Failure(f.kind, 0, None, None))
  {
    var n := |slots| - 1;
    forall k: nat | k < n
      ensures FailsWith(slots[..n], k, f.kind) <==> FailsWith(slots, k, f.kind)
    {
      CollidesInPrefix(slots, n, k);
    }
    if k: nat :| k < n && FailsWith(slots, k, f.kind) {
      assert FailsWith(slots[..n], k, f.kind);
    }
  }

  lemma FailuresOneMore(before: set<Failure>, middle: set<Failure>, after: set<Failure>, slots: seq<GenesisSlot>)
    requires slots != [] && AddsFailures(before, middle, slots[..|slots| - 1])
    requires FailuresAfter(middle, after, slots[|slots| - 1], Collides(slots, |slots| - 1))
    ensures AddsFailures(before, after, slots)
  {
    forall f
      ensures f in after <==> f in before || FailsFor(slots, f)
    {
      FailsForOneMore(slots, f);
    }
  }

  ghost predicate FailuresAfter(before: set<Failure>, after: set<Failure>, g: GenesisSlot, collides: bool) {
    forall f :: f in after <==> f in before || (EntryFails(g, collides, f.kind) && f == Failure(f.kind, 0, None, None))
  }

  ghost predicate StateAfter(m: State, m': State, g: GenesisSlot, founds: bool, collides: bool) {
    && WindowsAfter(m.windows, m'.windows, g, founds)
    && m'.written == m.written + (if founds then 1 else 0)
    && m'.failed == m.failed + (if FailsSomehow(g, collides) then 1 else 0)
    && FailuresAfter(m.failures, m'.failures, g, collides)
  }

  lemma SeedSlotExactly(m: State, g: GenesisSlot)
    requires AllGenesis(m.windows)
    ensures StateAfter(m, SeedSlot(m, g), g, Eligible(g) && NoneShares(m.windows, g),
                       Eligible(g) && SomeSharesOne(m.windows, g))
  {
    if Eligible(g) {
      EntryAtOne(m.windows, g);
    }
  }

  /** What one more entry does to the state: its window, or its failure, or neither. */
  lemma EntryEffect(m: State, slots: seq<GenesisSlot>)
    requires slots != [] && SeededBy(m.windows, slots[..|slots| - 1])
    ensures var n := |slots| - 1;
            && StateAfter(m, SeedSlot(m, slots[n]), slots[n], Founds(slots, n), Collides(slots, n))
            && (Founds(slots, n) ==> NoneShares(m.windows, slots[n]))
  {
    var g := slots[|slots| - 1];
    SeededAreGenesis(m.windows, slots[..|slots| - 1]);
    SeedSlotExactly(m, g);
    if Eligible(g) {
      FoundsExactly(m.windows, slots);
      CollidesExactly(m.windows, slots);
    }
  }

  lemma EntryExactly(m: State, slots: seq<GenesisSlot>)
    requires slots != [] && SeededBy(m.windows, slots[..|slots| - 1])
    ensures SeededBy(SeedSlot(m, slots[|slots| - 1]).windows, slots)
  {
    var n := |slots| - 1;
    var m' := SeedSlot(m, slots[n]);
    EntryEffect(m, slots);
    FoundedOneMore(m.windows, m'.windows, slots);
    KeptOneMore(m.windows, m'.windows, slots);
    ApartOneMore(m.windows, m'.windows, slots[n], Founds(slots, n));
  }

  /** Seeding an empty table: the windows are exactly those of the founding entries, and every active entry without
      slot or valid address, and every colliding one, adds exactly its failure. */
  lemma {:induction false} GenesisSeedExactly(failures: set<Failure>, slots: seq<GenesisSlot>)
    ensures var m := SeedAll(State([], failures, 0, 0), slots);
            && SeededBy(m.windows, slots)
            && AddsFailures(failures, m.failures, slots)
            && m.written == |Founding(slots)| && m.failed == |Failing(slots)|
  {
    var start := State([], failures, 0, 0);
    if slots == [] {
      assert Founding(slots) == {} && Failing(slots) == {};
    } else {
      var n := |slots| - 1;
      GenesisSeedExactly(failures, slots[..n]);
      var m := SeedAll(start, slots[..n]);
      EntryEffect(m, slots);
      EntryExactly(m, slots);
      FoundingOneMore(slots);
      FailingOneMore(slots);
      FailuresOneMore(failures, m.failures, SeedAll(start, slots).failures, slots);
    }
  }

  /** A slot and an address own a window from height 1 on exactly when some active entry names both and no earlier
      entry with a window has either. */
  lemma WindowsExactly(failures: set<Failure>, slots: seq<GenesisSlot>, slot: int, address: Address)
    ensures var m := SeedAll(State([], failures, 0, 0), slots);
            HasWindow(m.windows, slot, address) <==>
              exists k: nat | k < |slots| :: Names(slots[k], slot, address) && Founds(slots, k)
  {
    var m := SeedAll(State([], failures, 0, 0), slots);
    GenesisSeedExactly(failures, slots);
    if i :| 0 <= i < |m.windows| && m.windows[i].slot == slot && m.windows[i].address == address {
      assert HasFounder(m.windows[i], slots);
    }
    if k: nat :| k < |slots| && Names(slots[k], slot, address) && Founds(slots, k) {
      assert KeepsWindow(m.windows, slots[k]);
    }
  }

  /** An inactive entry, wherever it stands, changes nothing. */
  lemma {:induction false} InactiveEntriesAreSkipped(m: State, a: seq<GenesisSlot>, g: GenesisSlot,
                                                     b: seq<GenesisSlot>)
    requires !g.active
    ensures SeedAll(m, a + [g] + b) == SeedAll(m, a + b)
  {
    var with, without := a + [g] + b, a + b;
    if b == [] {
      assert with[..|with| - 1] == a && without == a;
    } else {
      assert with[..|with| - 1] == a + [g] + b[..|b| - 1] && without[..|without| - 1] == a + b[..|b| - 1];
      InactiveEntriesAreSkipped(m, a, g, b[..|b| - 1]);
    }
  }

  /** Reading the genesis over an empty table: one that cannot be read is recorded and opens nothing; one that can
      replaces the failures of height 0 by its own. */
  lemma SeedFromExactly(failures: set<Failure>, written: nat, failed: nat, genesis: GenesisAnswer)
    ensures var m := SeedFrom(State([], failures, written, failed), genesis);
            match genesis
            case Unavailable =>
              m.windows == [] && m.failures == failures + {Failure(GenesisUnavailable, 0, None, None)}
            case Malformed =>
              m.windows == [] && m.failures == failures + {Failure(GenesisMalformed, 0, None, None)}
            case Interrupted =>
              m.windows == [] && m.failures == failures
            case Slots(slots) =>
              && SeededBy(m.windows, slots)
              && AddsFailures((set f | f in failures && f.sourceHeight != 0), m.failures, slots)
              && m.written == |Founding(slots)| && m.failed == |Failing(slots)|
  {
    if genesis.Slots? {
      GenesisSeedExactly((set f | f in failures && f.sourceHeight != 0), genesis.slots);
    }
  }
}
