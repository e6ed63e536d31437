/** The consensus-window table: which CoreSlot owned which consensus address at which block height.
    Lifecycle events and key rotations open and close half-open windows [from, to). */
module TemporalMap {
  import opened Wrappers

  /** A validator update at height H takes part in the set at H + 2. */
  const MEMBERSHIP_OFFSET := 2

  /** A normalised consensus address (40 lower-case hex digits). */
  type Address = nat

  /** An address as a row carries it, before normalisation. */
  datatype RawAddress = NoAddress | BlankAddress | MalformedAddress | HexAddress(address: Address)

  function NormalizeAddress(raw: RawAddress): Option<Address> {
    if raw.HexAddress? then Some(raw.address) else None
  }

  /** None is an error; Some(None) is "no address given". */
  function NormalizeOptionalAddress(raw: RawAddress): Option<Option<Address>> {
    match raw
    case NoAddress => Some(None)
    case BlankAddress => Some(None)
    case MalformedAddress => None
    case HexAddress(a) => Some(Some(a))
  }

  /** What opened or closed a window. */
  datatype Origin =
    | Genesis
    | FromLifecycle(eventId: int, lifecycleId: int)
    | FromRotation(appliedEventId: Option<int>, rotationId: int)
  {
    function EventId(): Option<int> {
      match this
      case Genesis => None
      case FromLifecycle(e, _) => Some(e)
      case FromRotation(e, _) => e
    }
  }

  /** One row of the window table; its row id is its position in the table. */
  datatype Window = Window(
    slot: int,
    operator: Option<string>,
    address: Address,
    power: Option<int>,
    updateHeight: Option<int>,
    from: int,
    to: Option<int>,
    openedBy: Origin,
    closedBy: Option<Origin>)

  type Table = seq<Window>

  predicate Covers(w: Window, height: int) {
    w.from <= height && (w.to.None? || height < w.to.value)
  }

  // ---- lookups ----

  /** The `where` clause of a window lookup at a height. */
  datatype Query = Query(slot: Option<int>, address: Option<Address>, height: int)

  predicate Matches(w: Window, q: Query) {
    && (q.slot.Some? ==> w.slot == q.slot.value)
    && (q.address.Some? ==> w.address == q.address.value)
    && Covers(w, q.height)
  }

  /** The matching window with the greatest `from`. */
  function FindWindow(t: Table, q: Query): (r: Option<nat>)
    ensures r.None? <==> forall i :: 0 <= i < |t| ==> !Matches(t[i], q)
    ensures r.Some? ==> r.value < |t| && Matches(t[r.value], q)
    ensures r.Some? ==> forall i :: 0 <= i < |t| && Matches(t[i], q) ==> t[i].from <= t[r.value].from
  {
    if t == [] then None
    else
      var n := |t| - 1;
      var rest := FindWindow(t[..n], q);
      assert forall i :: 0 <= i < n ==> t[..n][i] == t[i];
      if Matches(t[n], q) && (rest.None? || t[rest.value].from < t[n].from) then Some(n) else rest
  }

  // ---- closing ----

  /** Which open windows of a slot a closing names: all of them, an address the source left null,
      or one address. */
  datatype CloseTarget = AnyWindow | Unnamed | Named(address: Address)

  datatype Closing = Closing(slot: int, target: CloseTarget, to: int, origin: Origin, requireWindow: bool)

  datatype CloseOutcome = Closed(written: nat) | MissingWindow | AmbiguousWindow | HeightInvalid

  predicate Selected(w: Window, c: Closing) {
    w.slot == c.slot && w.to.None? && (c.target.Named? ==> w.address == c.target.address)
  }

  function Ended(w: Window, c: Closing): Window {
    w.(to := Some(c.to), closedBy := Some(c.origin))
  }

  function CountSelected(t: Table, c: Closing): nat {
    if t == [] then 0 else (if Selected(t[0], c) then 1 else 0) + CountSelected(t[1..], c)
  }

  /** Ends the selected windows from row `i` on, stopping at one that starts at or after `c.to`. */
  function EndSelected(t: Table, c: Closing, i: nat, written: nat): (Table, CloseOutcome)
    requires i <= |t|
    decreases |t| - i
  {
    if i == |t| then (t, Closed(written))
    else if !Selected(t[i], c) then EndSelected(t, c, i + 1, written)
    else if c.to <= t[i].from then (t, HeightInvalid)
    else EndSelected(t[i := Ended(t[i], c)], c, i + 1, written + 1)
  }

  function CloseWindows(t: Table, c: Closing): (Table, CloseOutcome) {
    var count := CountSelected(t, c);
    if c.target.Unnamed? && count > 1 then (t, AmbiguousWindow)
    else if count == 0 then (t, if c.requireWindow then MissingWindow else Closed(0))
    else EndSelected(t, c, 0, 0)
  }

  // ---- opening ----

  datatype Opening = Opening(
    slot: int,
    operator: Option<string>,
    address: Address,
    power: Option<int>,
    updateHeight: Option<int>,
    from: int,
    origin: Origin)

  datatype OpenOutcome = Refreshed | Created | SlotConflict | AddressConflict {
    predicate Ok() { Refreshed? || Created? }
  }

  function Refresh(w: Window, o: Opening): Window {
    w.(operator := o.operator.Or(w.operator),
       power := o.power.Or(w.power),
       updateHeight := o.updateHeight.Or(w.updateHeight))
  }

  function NewWindow(o: Opening): Window {
    Window(o.slot, o.operator, o.address, o.power, o.updateHeight, o.from, None, o.origin, None)
  }

  function SameWindow(o: Opening): Query {
    Query(Some(o.slot), Some(o.address), o.from)
  }

  function EndingFor(o: Opening): Closing {
    Closing(o.slot, AnyWindow, o.from, o.origin, false)
  }

  /** Another slot already owns the address at the opening height. */
  predicate AddressTaken(t: Table, o: Opening) {
    exists i :: 0 <= i < |t| && Matches(t[i], Query(None, Some(o.address), o.from)) && t[i].slot != o.slot
  }

  function OpenWindow(t: Table, o: Opening): (Table, OpenOutcome) {
    var same := FindWindow(t, SameWindow(o));
    if same.Some? then (t[same.value := Refresh(t[same.value], o)], Refreshed)
    else
      var (ended, outcome) := EndSelected(t, EndingFor(o), 0, 0);
      if !outcome.Closed? then (ended, SlotConflict)
      else if AddressTaken(ended, o) then (ended, AddressConflict)
      else (ended + [NewWindow(o)], Created)
  }

  // ---- steps ----

  datatype LifecycleType = Registered | Activated | Inactivated | Suspended | Removed | UnknownType

  datatype LifecycleEvent = LifecycleEvent(
    id: int,
    sourceEventId: int,
    height: int,
    slot: Option<int>,
    eventType: LifecycleType,
    operator: Option<string>,
    address: RawAddress,
    power: Option<int>,
    effectiveHeight: Option<int>)

  datatype RotationStatus = Requested | Applied | ImmediateApplied | Cancelled | UnknownStatus

  datatype Rotation = Rotation(
    id: int,
    slot: int,
    operator: Option<string>,
    oldAddress: RawAddress,
    newAddress: RawAddress,
    status: RotationStatus,
    effectiveHeight: Option<int>,
    appliedHeight: Option<int>,
    cancelledHeight: Option<int>,
    power: Option<int>,
    appliedEventId: Option<int>)

  datatype FailureKind =
    | InvalidSlotId
    | GenesisUnavailable
    | GenesisMalformed
    | InvalidConsensusAddress
    | UnknownSemanticType
    | EffectiveHeightInvalid
    | MissingActivationWindow
    | TemporalWindowConflict
    | TemporalWindowAmbiguous

  /** A failure row, reduced to the fields of its unique key: writing it again changes nothing. */
  datatype Failure = Failure(
    kind: FailureKind,
    sourceHeight: int,
    eventId: Option<int>,
    eventType: Option<LifecycleType>)

  /** The window table, the failure table and the counters of the height being projected. */
  datatype State = State(windows: Table, failures: set<Failure>, written: nat, failed: nat)

  function Fail(m: State, f: Failure): State {
    m.(failures := m.failures + {f}, failed := m.failed + 1)
  }

  function LifecycleUpdateHeight(e: LifecycleEvent): int {
    e.effectiveHeight.GetOr(e.height)
  }

  function RotationUpdateHeight(r: Rotation): Option<int> {
    r.effectiveHeight.Or(r.appliedHeight)
  }

  function ActivationOf(e: LifecycleEvent, slot: int, address: Address): Opening {
    var update := LifecycleUpdateHeight(e);
    Opening(slot, e.operator, address, e.power, Some(update), update + MEMBERSHIP_OFFSET,
            FromLifecycle(e.sourceEventId, e.id))
  }

  function DeactivationOf(e: LifecycleEvent, slot: int): Closing {
    Closing(slot, AnyWindow, LifecycleUpdateHeight(e) + MEMBERSHIP_OFFSET,
            FromLifecycle(e.sourceEventId, e.id), false)
  }

  function CloseFailure(outcome: CloseOutcome): FailureKind
    requires !outcome.Closed?
  {
    match outcome
    case MissingWindow => MissingActivationWindow
    case AmbiguousWindow => TemporalWindowAmbiguous
    case HeightInvalid => EffectiveHeightInvalid
  }

  function Open(m: State, o: Opening, sourceHeight: int): State {
    var (windows, outcome) := OpenWindow(m.windows, o);
    var next := m.(windows := windows);
    if outcome.Ok() then next.(written := m.written + if outcome.Created? then 1 else 0)
    else Fail(next, Failure(TemporalWindowConflict, sourceHeight, o.origin.EventId(), None))
  }

  function Close(m: State, c: Closing, sourceHeight: int): State {
    var (windows, outcome) := CloseWindows(m.windows, c);
    var next := m.(windows := windows);
    if outcome.Closed? then next.(written := m.written + outcome.written)
    else Fail(next, Failure(CloseFailure(outcome), sourceHeight, c.origin.EventId(), None))
  }

  function ProjectLifecycle(m: State, e: LifecycleEvent): State {
    if e.slot.None? then
      Fail(m, Failure(InvalidSlotId, e.height, Some(e.sourceEventId), Some(e.eventType)))
    else
      match e.eventType
      case Registered => m
      case Activated =>
        var address := NormalizeAddress(e.address);
        if address.None? then
          Fail(m, Failure(InvalidConsensusAddress, e.height, Some(e.sourceEventId), Some(e.eventType)))
        else Open(m, ActivationOf(e, e.slot.value, address.value), e.height)
      case UnknownType =>
        Fail(m, Failure(UnknownSemanticType, e.height, Some(e.sourceEventId), Some(e.eventType)))
      case _ => Close(m, DeactivationOf(e, e.slot.value), e.height)
  }

  function RotationOpening(r: Rotation, address: Address, update: int): Opening {
    Opening(r.slot, r.operator, address, r.power, Some(update), update + MEMBERSHIP_OFFSET,
            FromRotation(r.appliedEventId, r.id))
  }

  function RotationClosing(r: Rotation, previous: Option<Address>, update: int): Closing {
    Closing(r.slot, if previous.None? then Unnamed else Named(previous.value), update + MEMBERSHIP_OFFSET,
            FromRotation(r.appliedEventId, r.id), previous.None?)
  }

  function RotationSourceHeight(r: Rotation, height: int): int {
    r.appliedHeight.Or(r.effectiveHeight).GetOr(height)
  }

  /** Closes the old key's window and opens the new one, unless the new one is already there. */
  function Rotate(m: State, closing: Closing, opening: Opening, sourceHeight: int): State {
    if FindWindow(m.windows, SameWindow(opening)).Some? then Open(m, opening, sourceHeight)
    else
      var closed := Close(m, closing, sourceHeight);
      if CloseWindows(m.windows, closing).1.Closed? then Open(closed, opening, sourceHeight) else closed
  }

  function ProjectRotation(m: State, r: Rotation, height: int): State {
    if r.status.Requested? || r.status.Cancelled? then m
    else if r.status.UnknownStatus? then
      Fail(m, Failure(UnknownSemanticType, r.appliedHeight.Or(r.cancelledHeight).GetOr(height),
                      r.appliedEventId, None))
    else
      var sourceHeight := RotationSourceHeight(r, height);
      var newAddress := NormalizeAddress(r.newAddress);
      var oldAddress := NormalizeOptionalAddress(r.oldAddress);
      var update := RotationUpdateHeight(r);
      if newAddress.None? || oldAddress.None? then
        Fail(m, Failure(InvalidConsensusAddress, sourceHeight, r.appliedEventId, None))
      else if update.None? then
        Fail(m, Failure(EffectiveHeightInvalid, sourceHeight, r.appliedEventId, None))
      else
        Rotate(m, RotationClosing(r, oldAddress.value, update.value),
               RotationOpening(r, newAddress.value, update.value), sourceHeight)
  }

  datatype Step = LifecycleStep(event: LifecycleEvent) | RotationStep(rotation: Rotation)

  function Apply(m: State, s: Step, height: int): State {
    match s
    case LifecycleStep(e) => ProjectLifecycle(m, e)
    case RotationStep(r) => ProjectRotation(m, r, height)
  }

  function ApplyAll(m: State, steps: seq<Step>, height: int): State {
    if steps == [] then m
    else Apply(ApplyAll(m, steps[..|steps| - 1], height), steps[|steps| - 1], height)
  }

  /** The height at which a step opens or closes windows; None for a step that touches none. */
  function Boundary(s: Step): Option<int> {
    match s
    case LifecycleStep(e) =>
      if e.slot.None? || e.eventType.Registered? || e.eventType.UnknownType? then None
      else if e.eventType.Activated? && NormalizeAddress(e.address).None? then None
      else Some(LifecycleUpdateHeight(e) + MEMBERSHIP_OFFSET)
    case RotationStep(r) =>
      if !(r.status.Applied? || r.status.ImmediateApplied?) then None
      else if NormalizeAddress(r.newAddress).None? || NormalizeOptionalAddress(r.oldAddress).None? then None
      else if RotationUpdateHeight(r).None? then None
      else Some(RotationUpdateHeight(r).value + MEMBERSHIP_OFFSET)
  }

  /** The rows read while one height is projected. */
  datatype HeightSource = HeightSource(height: int, lifecycle: seq<LifecycleEvent>, rotations: seq<Rotation>) {
    function Steps(): seq<Step> {
      seq(|lifecycle|, i requires 0 <= i < |lifecycle| => LifecycleStep(lifecycle[i]))
      + seq(|rotations|, i requires 0 <= i < |rotations| => RotationStep(rotations[i]))
    }
  }

  /** The state in which a height is projected: its own old failures cleared, counters at zero. */
  function Prepare(m: State, height: int): State {
    m.(failures := (set f | f in m.failures && f.sourceHeight != height), written := 0, failed := 0)
  }

  function ProjectHeight(m: State, s: HeightSource): State {
    ApplyAll(Prepare(m, s.height), s.Steps(), s.height)
  }

  function ProjectRange(m: State, sources: seq<HeightSource>): State {
    if sources == [] then m
    else ProjectHeight(ProjectRange(m, sources[..|sources| - 1]), sources[|sources| - 1])
  }

  // ---- genesis ----

  datatype GenesisSlot = GenesisSlot(
    active: bool,
    slot: Option<int>,
    operator: Option<string>,
    address: RawAddress,
    power: Option<int>)

  /** Genesis failures live at height 0, below every real block. */
  const GENESIS_HEIGHT := 0

  function SeedSlot(m: State, g: GenesisSlot): State {
    if !g.active then m
    else if g.slot.None? then Fail(m, Failure(GenesisMalformed, GENESIS_HEIGHT, None, None))
    else
      var address := NormalizeAddress(g.address);
      if address.None? then Fail(m, Failure(InvalidConsensusAddress, GENESIS_HEIGHT, None, None))
      else Open(m, Opening(g.slot.value, g.operator, address.value, g.power, None, 1, Genesis), GENESIS_HEIGHT)
  }

  function SeedAll(m: State, slots: seq<GenesisSlot>): State {
    if slots == [] then m
    else SeedSlot(SeedAll(m, slots[..|slots| - 1]), slots[|slots| - 1])
  }

  /** What reading the genesis gives; `Interrupted` is a seeding transaction that is rolled back. */
  datatype GenesisAnswer = Unavailable | Malformed | Interrupted | Slots(slots: seq<GenesisSlot>)

  function SeedFrom(m: State, g: GenesisAnswer): State {
    match g
    case Unavailable => m.(failures := m.failures + {Failure(GenesisUnavailable, GENESIS_HEIGHT, None, None)})
    case Malformed => m.(failures := m.failures + {Failure(GenesisMalformed, GENESIS_HEIGHT, None, None)})
    case Interrupted => m
    case Slots(slots) => SeedAll(Prepare(m, GENESIS_HEIGHT), slots)
  }
}
