/** Key rotations: requests, applications and cancellations of a height correlated into rotation rows. */
module KeyRotation {
  import opened Wrappers
  import opened Decimal

  // ---- source rows ----

  datatype EventKind = RequestedEvent | RotatedEvent | CancelEvent

  datatype FailureKind =
    | InvalidSlotId | InvalidConsensusAddress | MissingRequiredPayload | AmbiguousEvent | MissingEvent
    | MissingMessage | MissingRequest | CorrelationFailed

  datatype Payload = Payload(operator: Option<string>, oldAddress: Option<string>, newAddress: Option<string>,
                             power: Option<int>, effectiveHeight: Option<int>, reason: Option<string>)

  datatype Extracted = Good(payload: Payload) | Bad(kind: FailureKind)

  /** `slotAttr` and `msgIndexAttr` are the attributes' text, `slot` the parsed slot. */
  datatype Event = Event(id: nat, height: int, kind: EventKind, txHash: Option<string>, msgIndexAttr: Option<string>,
                         slotAttr: Option<string>, slot: Option<int>, extracted: Extracted)

  datatype Message = Message(id: nat, height: int, txHash: string, msgIndex: nat, slot: Option<int>,
                             operator: Option<string>)

  /** What is stored of one height: the rotation messages of successful transactions, every rotation event
      in id order, and the successful transactions. */
  datatype Source = Source(messages: seq<Message>, events: seq<Event>, successful: set<string>)

  // ---- rotation rows ----

  datatype Status = Requested | Applied | ImmediateApplied | Cancelled

  datatype Rotation = Rotation(status: Status, slotId: int, operator: Option<string>, oldAddress: Option<string>,
                               newAddress: Option<string>, effectiveHeight: Option<int>, power: Option<int>,
                               reason: Option<string>, messageId: Option<nat>, requestedHeight: Option<int>,
                               appliedHeight: Option<int>, cancelledHeight: Option<int>,
                               requestEvent: Option<nat>, appliedEvent: Option<nat>, cancelledEvent: Option<nat>)

  datatype Failure = Failure(kind: FailureKind, height: int, messageId: Option<nat>, eventId: Option<nat>)

  datatype State = State(rows: seq<Rotation>, failures: set<Failure>, written: nat, created: nat)

  // ---- matching ----

  predicate EventMatchesMessage(e: Event, m: Message, slotId: int) {
    && e.txHash == Some(m.txHash)
    && (e.msgIndexAttr.None? || e.msgIndexAttr.value == ToDecimal(m.msgIndex))
    && (e.slotAttr.None? || e.slotAttr.value == IntText(slotId))
  }

  /** Bound to a transaction that did not succeed. */
  predicate IsFailedTxBound(e: Event, src: Source) {
    e.txHash.Some? && e.txHash.value !in src.successful
  }

  /** The events of a kind that match the message and are not used yet, in order. */
  function Matches(events: seq<Event>, kind: EventKind, m: Message, slotId: int, used: set<nat>): seq<Event> {
    if events == [] then []
    else
      var e := events[|events| - 1];
      var earlier := Matches(events[..|events| - 1], kind, m, slotId, used);
      if e.kind == kind && e.id !in used && EventMatchesMessage(e, m, slotId) then earlier + [e] else earlier
  }

  /** The ids of requested and rotated events that messages of the height have taken. */
  datatype Used = Used(requested: set<nat>, rotated: set<nat>)

  datatype Decision =
    | Reject(kind: FailureKind, event: Option<Event>)
    | TakeRequest(e: Event, p: Payload, slotId: int)
    | TakeRotated(e: Event, p: Payload, slotId: int)

  /** What becomes of a message; it depends on the height's messages and events, never on stored rows. */
  function Decide(src: Source, m: Message, used: Used): Decision {
    if m.slot.None? then Reject(InvalidSlotId, None)
    else
      var requested := Matches(src.events, RequestedEvent, m, m.slot.value, used.requested);
      if |requested| > 1 then Reject(AmbiguousEvent, Some(requested[0]))
      else if |requested| == 1 then
        match requested[0].extracted
        case Bad(kind) => Reject(kind, Some(requested[0]))
        case Good(p) => TakeRequest(requested[0], p, m.slot.value)
      else
        var rotated := Matches(src.events, RotatedEvent, m, m.slot.value, used.rotated);
        if |rotated| > 1 then Reject(AmbiguousEvent, Some(rotated[0]))
        else if |rotated| == 1 then
          match rotated[0].extracted
          case Bad(kind) => Reject(kind, Some(rotated[0]))
          case Good(p) => TakeRotated(rotated[0], p, m.slot.value)
        else Reject(MissingEvent, None)
  }

  function Uses(used: Used, d: Decision): Used {
    match d
    case Reject(_, _) => used
    case TakeRequest(e, _, _) => used.(requested := used.requested + {e.id})
    case TakeRotated(e, _, _) => used.(rotated := used.rotated + {e.id})
  }

  /** What the first `n` messages of the height have taken. */
  function UsedBy(src: Source, n: nat): Used
    requires n <= |src.messages|
  {
    if n == 0 then Used({}, {}) else Uses(UsedBy(src, n - 1), Decide(src, src.messages[n - 1], UsedBy(src, n - 1)))
  }

  /** Whether a rotated event is applied at once by a message of its height. */
  predicate IsImmediate(src: Source, id: nat) {
    id in UsedBy(src, |src.messages|).rotated
  }

  // ---- row writers ----

  function RequestRow(old_: Option<Rotation>, e: Event, p: Payload, slotId: int, m: Option<Message>,
                      operator: Option<string>): Rotation
  {
    var requestedHeight := if m.Some? then m.value.height else e.height;
    var messageId := if m.Some? then Some(m.value.id) else None;
    match old_
    case Some(r) =>
      r.(slotId := slotId, operator := operator.Or(p.operator), oldAddress := p.oldAddress, newAddress := p.newAddress,
         requestedHeight := Some(requestedHeight), effectiveHeight := p.effectiveHeight, messageId := messageId)
    case None =>
      Rotation(Requested, slotId, operator.Or(p.operator), p.oldAddress, p.newAddress, p.effectiveHeight, None, None,
               messageId, Some(requestedHeight), None, None, Some(e.id), None, None)
  }

  function ImmediateRow(old_: Option<Rotation>, e: Event, p: Payload, slotId: int, m: Message): Rotation {
    match old_
    case Some(r) =>
      r.(status := ImmediateApplied, slotId := slotId, operator := m.operator.Or(p.operator),
         oldAddress := p.oldAddress,
         newAddress := p.newAddress, requestedHeight := Some(m.height), effectiveHeight := p.effectiveHeight,
         appliedHeight := Some(e.height), power := p.power, messageId := Some(m.id))
    case None =>
      Rotation(ImmediateApplied, slotId, m.operator.Or(p.operator), p.oldAddress, p.newAddress, p.effectiveHeight,
               p.power, None, Some(m.id), Some(m.height), Some(e.height), None, None, Some(e.id), None)
  }

  function MarkApplied(r: Rotation, e: Event, p: Payload): Rotation {
    r.(status := Applied, appliedHeight := Some(e.height), power := p.power, oldAddress := p.oldAddress,
       newAddress := p.newAddress, effectiveHeight := p.effectiveHeight, appliedEvent := Some(e.id))
  }

  function AppliedRow(e: Event, p: Payload, slotId: int): Rotation {
    Rotation(Applied, slotId, p.operator, p.oldAddress, p.newAddress, p.effectiveHeight, p.power, None,
             None, None, Some(e.height), None, None, Some(e.id), None)
  }

  function MarkCancelled(r: Rotation, e: Event, p: Payload): Rotation {
    r.(status := Cancelled, cancelledHeight := Some(e.height), reason := p.reason, cancelledEvent := Some(e.id))
  }

  function CancelledRow(e: Event, p: Payload, slotId: int): Rotation {
    Rotation(Cancelled, slotId, p.operator, p.oldAddress, p.newAddress, None, None, p.reason,
             None, None, None, Some(e.height), None, None, Some(e.id))
  }

  // ---- row lookups ----

  function EventOf(r: Rotation, kind: EventKind): Option<nat> {
    match kind
    case RequestedEvent => r.requestEvent
    case RotatedEvent => r.appliedEvent
    case CancelEvent => r.cancelledEvent
  }

  /** The row an event already drives. */
  function FindRow(rows: seq<Rotation>, kind: EventKind, id: nat): (at: Option<nat>)
    ensures at.Some? ==> at.value < |rows| && EventOf(rows[at.value], kind) == Some(id)
    ensures at.None? ==> forall i :: 0 <= i < |rows| ==> EventOf(rows[i], kind) != Some(id)
  {
    if rows == [] then None
    else
      var n := |rows| - 1;
      var earlier := FindRow(rows[..n], kind, id);
      if earlier.Some? then earlier
      else if EventOf(rows[n], kind) == Some(id) then Some(n)
      else None
  }

  predicate IsOpenRequest(r: Rotation, slotId: int, p: Payload) {
    && r.status == Requested && r.slotId == slotId && r.newAddress == p.newAddress
    && (p.effectiveHeight.None? || r.effectiveHeight == p.effectiveHeight)
  }

  /** The requested rows that a confirmed effect may belong to. */
  function OpenRequests(rows: seq<Rotation>, slotId: int, p: Payload): (at: seq<nat>)
    ensures forall i :: i in at ==> i < |rows| && IsOpenRequest(rows[i], slotId, p)
  {
    if rows == [] then []
    else
      var n := |rows| - 1;
      var earlier := OpenRequests(rows[..n], slotId, p);
      if IsOpenRequest(rows[n], slotId, p) then earlier + [n] else earlier
  }

  // ---- the four passes ----

  function Fail(st: State, f: Failure): State {
    st.(failures := st.failures + {f}, created := st.created + 1)
  }

  function Put(rows: seq<Rotation>, at: Option<nat>, r: Rotation): seq<Rotation>
    requires at.Some? ==> at.value < |rows|
  {
    if at.Some? then rows[at.value := r] else rows + [r]
  }

  function RowAt(rows: seq<Rotation>, at: Option<nat>): Option<Rotation>
    requires at.Some? ==> at.value < |rows|
  {
    if at.Some? then Some(rows[at.value]) else None
  }

  function UpsertRequested(rows: seq<Rotation>, e: Event, p: Payload, slotId: int, m: Option<Message>,
                           operator: Option<string>): seq<Rotation>
  {
    var at := FindRow(rows, RequestedEvent, e.id);
    Put(rows, at, RequestRow(RowAt(rows, at), e, p, slotId, m, operator))
  }

  function UpsertImmediate(rows: seq<Rotation>, e: Event, p: Payload, slotId: int, m: Message): seq<Rotation> {
    var at := FindRow(rows, RotatedEvent, e.id);
    Put(rows, at, ImmediateRow(RowAt(rows, at), e, p, slotId, m))
  }

  function ProjectMessage(st: State, m: Message, d: Decision): State {
    match d
    case Reject(kind, event) =>
      Fail(st, Failure(kind, m.height, Some(m.id), if event.Some? then Some(event.value.id) else None))
    case TakeRequest(e, p, slotId) =>
      st.(rows := UpsertRequested(st.rows, e, p, slotId, Some(m), m.operator), written := st.written + 1)
    case TakeRotated(e, p, slotId) =>
      st.(rows := UpsertImmediate(st.rows, e, p, slotId, m), written := st.written + 1)
  }

  /** Why an event on its own cannot be projected, if so. */
  function Defect(e: Event): Option<FailureKind> {
    if e.slot.None? then Some(InvalidSlotId)
    else if e.extracted.Bad? then Some(e.extracted.kind)
    else None
  }

  function OfEvent(kind: FailureKind, e: Event): Failure {
    Failure(kind, e.height, None, Some(e.id))
  }

  function ProjectOrphanRequest(st: State, e: Event): State {
    if Defect(e).Some? then Fail(st, OfEvent(Defect(e).value, e))
    else
      var p := e.extracted.payload;
      Fail(st.(rows := UpsertRequested(st.rows, e, p, e.slot.value, None, p.operator), written := st.written + 1),
           OfEvent(MissingMessage, e))
  }

  /** A confirmed effect: on the row it already drives, else on the one open request it belongs to, else on a
      row of its own, reported as having no request. */
  function ProjectEffect(st: State, e: Event): State {
    if Defect(e).Some? then Fail(st, OfEvent(Defect(e).value, e))
    else
      var p, slotId := e.extracted.payload, e.slot.value;
      var at := FindRow(st.rows, e.kind, e.id);
      var open := OpenRequests(st.rows, slotId, p);
      if at.Some? then st.(rows := st.rows[at.value := Mark(st.rows[at.value], e, p)], written := st.written + 1)
      else if |open| > 1 then Fail(st, OfEvent(CorrelationFailed, e))
      else if |open| == 1 then
        assert open[0] in open;
        st.(rows := st.rows[open[0] := Mark(st.rows[open[0]], e, p)], written := st.written + 1)
      else
        Fail(st.(rows := st.rows + [OwnRow(e, p, slotId)], written := st.written + 1), OfEvent(MissingRequest, e))
  }

  function Mark(r: Rotation, e: Event, p: Payload): Rotation {
    if e.kind == CancelEvent then MarkCancelled(r, e, p) else MarkApplied(r, e, p)
  }

  function OwnRow(e: Event, p: Payload, slotId: int): Rotation {
    if e.kind == CancelEvent then CancelledRow(e, p, slotId) else AppliedRow(e, p, slotId)
  }

  function ProjectMessages(st: State, src: Source, n: nat): State
    requires n <= |src.messages|
  {
    if n == 0 then st
    else
      ProjectMessage(ProjectMessages(st, src, n - 1), src.messages[n - 1],
                     Decide(src, src.messages[n - 1], UsedBy(src, n - 1)))
  }

  /** Events a pass leaves alone: of another kind, taken by a message, or of a failed transaction. */
  predicate Skipped(src: Source, used: Used, kind: EventKind, e: Event) {
    || e.kind != kind
    || (kind == RequestedEvent && e.id in used.requested)
    || (kind == RotatedEvent && e.id in used.rotated)
    || IsFailedTxBound(e, src)
  }

  function ProjectEvent(st: State, e: Event): State {
    if e.kind == RequestedEvent then ProjectOrphanRequest(st, e) else ProjectEffect(st, e)
  }

  /** One pass over the first `n` events of the height. */
  function ProjectEvents(st: State, src: Source, used: Used, kind: EventKind, n: nat): State
    requires n <= |src.events|
  {
    if n == 0 then st
    else
      var earlier := ProjectEvents(st, src, used, kind, n - 1);
      if Skipped(src, used, kind, src.events[n - 1]) then earlier else ProjectEvent(earlier, src.events[n - 1])
  }

  /** A height starts without its failures and counts from zero. */
  function Cleared(st: State, height: int): State {
    State(st.rows, set f | f in st.failures && f.height != height, 0, 0)
  }

  function ProjectHeight(st: State, height: int, src: Source): State {
    var used := UsedBy(src, |src.messages|);
    var messages := ProjectMessages(Cleared(st, height), src, |src.messages|);
    var requests := ProjectEvents(messages, src, used, RequestedEvent, |src.events|);
    var applied := ProjectEvents(requests, src, used, RotatedEvent, |src.events|);
    ProjectEvents(applied, src, used, CancelEvent, |src.events|)
  }

  // ---- the projection as it runs ----

  class Projection {
    var rows: seq<Rotation>
    var failures: set<Failure>
    var written: nat
    var created: nat

    ghost function Contents(): State
      reads this
    {
      State(rows, failures, written, created)
    }

    constructor ()
      ensures Contents() == State([], {}, 0, 0)
    {
      rows, failures, written, created := [], {}, 0, 0;
    }

    method CreateFailure(f: Failure)
      modifies this
      ensures Contents() == Fail(old(Contents()), f)
    {
      failures := failures + {f};
      created := created + 1;
    }

    method StoreRequested(e: Event, p: Payload, slotId: int, m: Option<Message>, operator: Option<string>)
      modifies this`rows, this`written
      ensures Contents() == old(Contents()).(rows := UpsertRequested(old(rows), e, p, slotId, m, operator),
                                             written := old(written) + 1)
    {
      var at := FindRow(rows, RequestedEvent, e.id);
      if at.Some? {
        rows := rows[at.value := RequestRow(Some(rows[at.value]), e, p, slotId, m, operator)];
      } else {
        rows := rows + [RequestRow(None, e, p, slotId, m, operator)];
      }
      written := written + 1;
    }

    method StoreImmediate(e: Event, p: Payload, slotId: int, m: Message)
      modifies this`rows, this`written
      ensures Contents() == old(Contents()).(rows := UpsertImmediate(old(rows), e, p, slotId, m),
                                             written := old(written) + 1)
    {
      var at := FindRow(rows, RotatedEvent, e.id);
      if at.Some? {
        rows := rows[at.value := ImmediateRow(Some(rows[at.value]), e, p, slotId, m)];
      } else {
        rows := rows + [ImmediateRow(None, e, p, slotId, m)];
      }
      written := written + 1;
    }

    method StoreMessage(m: Message, d: Decision)
      modifies this
      ensures Contents() == ProjectMessage(old(Contents()), m, d)
    {
      match d {
        case Reject(kind, event) =>
          CreateFailure(Failure(kind, m.height, Some(m.id), if event.Some? then Some(event.value.id) else None));
        case TakeRequest(e, p, slotId) =>
          StoreRequested(e, p, slotId, Some(m), m.operator);
        case TakeRotated(e, p, slotId) =>
          StoreImmediate(e, p, slotId, m);
      }
    }

    method StoreOrphanRequest(e: Event)
      modifies this
      ensures Contents() == ProjectOrphanRequest(old(Contents()), e)
    {
      if Defect(e).Some? {
        CreateFailure(OfEvent(Defect(e).value, e));
        return;
      }
      StoreRequested(e, e.extracted.payload, e.slot.value, None, e.extracted.payload.operator);
      CreateFailure(OfEvent(MissingMessage, e));
    }

    method StoreEffect(e: Event)
      modifies this
      ensures Contents() == ProjectEffect(old(Contents()), e)
    {
      if Defect(e).Some? {
        CreateFailure(OfEvent(Defect(e).value, e));
        return;
      }
      var p, slotId := e.extracted.payload, e.slot.value;
      var at := FindRow(rows, e.kind, e.id);
      if at.Some? {
        rows := rows[at.value := Mark(rows[at.value], e, p)];
        written := written + 1;
        return;
      }
      var open := OpenRequests(rows, slotId, p);
      if |open| > 1 {
        CreateFailure(OfEvent(CorrelationFailed, e));
      } else if |open| == 1 {
        assert open[0] in open;
        rows := rows[open[0] := Mark(rows[open[0]], e, p)];
        written := written + 1;
      } else {
        rows := rows + [OwnRow(e, p, slotId)];
        written := written + 1;
        CreateFailure(OfEvent(MissingRequest, e));
      }
    }

    method StoreEvents(src: Source, kind: EventKind, used: Used)
      modifies this
      ensures Contents() == ProjectEvents(old(Contents()), src, used, kind, |src.events|)
    {
      for i := 0 to |src.events|
        invariant Contents() == ProjectEvents(old(Contents()), src, used, kind, i)
      {
        var e := src.events[i];
        var taken := (kind == RequestedEvent && e.id in used.requested)
          || (kind == RotatedEvent && e.id in used.rotated);
        if e.kind == kind && !taken && !IsFailedTxBound(e, src) {
          if kind == RequestedEvent {
            StoreOrphanRequest(e);
          } else {
            StoreEffect(e);
          }
        }
      }
    }

    method ProjectAtHeight(height: int, src: Source)
      modifies this
      ensures Contents() == ProjectHeight(old(Contents()), height, src)
    {
      failures := set f | f in failures && f.height != height;
      written, created := 0, 0;
      var used := Used({}, {});
      for i := 0 to |src.messages|
        invariant used == UsedBy(src, i)
        invariant Contents() == ProjectMessages(Cleared(old(Contents()), height), src, i)
      {
        var d := Decide(src, src.messages[i], used);
        StoreMessage(src.messages[i], d);
        used := Uses(used, d);
      }
      StoreEvents(src, RequestedEvent, used);
      StoreEvents(src, RotatedEvent, used);
      StoreEvents(src, CancelEvent, used);
    }
  }
}
