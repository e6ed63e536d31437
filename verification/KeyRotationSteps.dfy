/** What each message and event of a height does to the rotation rows and failures, told from their own fields. */
module KeyRotationSteps {
  import opened Wrappers
  import opened Counting
  import opened Decimal
  import opened KeyRotation

  // ---- matching ----

  /** An event of the message's transaction that names its index and slot, or does not say. */
  predicate IsOf(e: Event, m: Message, slotId: int) {
    && e.txHash == Some(m.txHash)
    && (e.msgIndexAttr == None || e.msgIndexAttr == Some(ToDecimal(m.msgIndex)))
    && (e.slotAttr == None || e.slotAttr == Some(IntText(slotId)))
  }

  /** The positions of the events of a kind that are the message's and that no earlier message took. */
  function Candidates(events: seq<Event>, kind: EventKind, m: Message, slotId: int, taken: set<nat>): set<nat> {
    set i: nat | i < |events| && events[i].kind == kind && events[i].id !in taken && IsOf(events[i], m, slotId)
  }

  predicate IsFirst(at: nat, positions: set<nat>) {
    at in positions && forall i :: i in positions ==> at <= i
  }

  lemma CandidatesOneMore(events: seq<Event>, kind: EventKind, m: Message, slotId: int, taken: set<nat>)
    requires events != []
    ensures var n := |events| - 1;
            Candidates(events, kind, m, slotId, taken) ==
            Candidates(events[..n], kind, m, slotId, taken)
            + if events[n].kind == kind && events[n].id !in taken && IsOf(events[n], m, slotId) then {n} else {}
  {
  }

  lemma {:induction false} MatchesAreCounted(events: seq<Event>, kind: EventKind, m: Message, slotId: int,
                                             taken: set<nat>)
    ensures |Matches(events, kind, m, slotId, taken)| == |Candidates(events, kind, m, slotId, taken)|
  {
    if events != [] {
      MatchesAreCounted(events[..|events| - 1], kind, m, slotId, taken);
      CandidatesOneMore(events, kind, m, slotId, taken);
    }
  }

  lemma {:induction false} FirstMatch(events: seq<Event>, kind: EventKind, m: Message, slotId: int, taken: set<nat>)
    returns (at: nat)
    requires Matches(events, kind, m, slotId, taken) != []
    ensures IsFirst(at, Candidates(events, kind, m, slotId, taken)) && at < |events|
    ensures events[at] == Matches(events, kind, m, slotId, taken)[0]
  {
    var n := |events| - 1;
    CandidatesOneMore(events, kind, m, slotId, taken);
    if Matches(events[..n], kind, m, slotId, taken) != [] {
      at := FirstMatch(events[..n], kind, m, slotId, taken);
    } else {
      MatchesAreCounted(events[..n], kind, m, slotId, taken);
      at := n;
    }
  }

  /** What the only candidate, or the first of several, leads to. */
  ghost predicate LeadsTo(d: Decision, src: Source, positions: set<nat>, slotId: int, rotated: bool) {
    exists at: nat :: at < |src.events| && IsFirst(at, positions)
      && if |positions| > 1 then d == Reject(AmbiguousEvent, Some(src.events[at]))
         else match src.events[at].extracted
              case Bad(kind) => d == Reject(kind, Some(src.events[at]))
              case Good(p) =>
                if rotated then d == TakeRotated(src.events[at], p, slotId)
                else d == TakeRequest(src.events[at], p, slotId)
  }

  /** A message takes its only requested event, and without one its only rotated event; without either, with several,
      with a bad payload or without a slot it is rejected for that reason. */
  lemma DecisionExactly(src: Source, m: Message, used: Used)
    ensures var d := Decide(src, m, used);
            if m.slot.None? then d == Reject(InvalidSlotId, None)
            else
              var requested := Candidates(src.events, RequestedEvent, m, m.slot.value, used.requested);
              var rotated := Candidates(src.events, RotatedEvent, m, m.slot.value, used.rotated);
              if requested != {} then LeadsTo(d, src, requested, m.slot.value, false)
              else if rotated != {} then LeadsTo(d, src, rotated, m.slot.value, true)
              else d == Reject(MissingEvent, None)
  {
    if m.slot.Some? {
      var slotId := m.slot.value;
      MatchesAreCounted(src.events, RequestedEvent, m, slotId, used.requested);
      MatchesAreCounted(src.events, RotatedEvent, m, slotId, used.rotated);
      if Matches(src.events, RequestedEvent, m, slotId, used.requested) != [] {
        var at := FirstMatch(src.events, RequestedEvent, m, slotId, used.requested);
      } else if Matches(src.events, RotatedEvent, m, slotId, used.rotated) != [] {
        var at := FirstMatch(src.events, RotatedEvent, m, slotId, used.rotated);
      }
    }
  }

  /** The k-th message takes the event. */
  predicate TakesAt(src: Source, k: int, rotated: bool, id: nat) {
    && 0 <= k < |src.messages|
    && var d := Decide(src, src.messages[k], UsedBy(src, k));
       if rotated then d.TakeRotated? && d.e.id == id else d.TakeRequest? && d.e.id == id
  }

  /** An event is taken exactly by the messages that decide for it. */
  lemma {:induction false} TakenExactly(src: Source, n: nat, id: nat)
    requires n <= |src.messages|
    ensures id in UsedBy(src, n).requested <==> exists k :: k < n && TakesAt(src, k, false, id)
    ensures id in UsedBy(src, n).rotated <==> exists k :: k < n && TakesAt(src, k, true, id)
  {
    if n > 0 {
      TakenExactly(src, n - 1, id);
      if TakesAt(src, n - 1, false, id) || TakesAt(src, n - 1, true, id) {
        assert id in UsedBy(src, n).requested || id in UsedBy(src, n).rotated;
      }
    }
  }

  // ---- rows ----

  predicate IsRowOf(rows: seq<Rotation>, i: nat, kind: EventKind, id: nat) {
    && i < |rows|
    && match kind
       case RequestedEvent => rows[i].requestEvent == Some(id)
       case RotatedEvent => rows[i].appliedEvent == Some(id)
       case CancelEvent => rows[i].cancelledEvent == Some(id)
  }

  /** The row of the event is the first that names it, and a new one if none does. */
  ghost predicate IsPlaceOf(rows: seq<Rotation>, i: nat, kind: EventKind, id: nat) {
    if i < |rows| then IsRowOf(rows, i, kind, id) && forall j :: 0 <= j < i ==> !IsRowOf(rows, j, kind, id)
    else i == |rows| && forall j :: 0 <= j < |rows| ==> !IsRowOf(rows, j, kind, id)
  }

  lemma {:induction false} FoundExactly(rows: seq<Rotation>, kind: EventKind, id: nat)
    ensures IsPlaceOf(rows, FindRow(rows, kind, id).GetOr(|rows|), kind, id)
    ensures FindRow(rows, kind, id).Some? ==> FindRow(rows, kind, id).value < |rows|
  {
    if rows != [] {
      var n := |rows| - 1;
      FoundExactly(rows[..n], kind, id);
      forall j: nat | j < n
        ensures IsRowOf(rows[..n], j, kind, id) <==> IsRowOf(rows, j, kind, id)
      {
      }
    }
  }

  /** An immediate rotation's row: applied at the event's height on the message's request, with the payload's addresses,
      power and effective height; of a row that is there, the rest is kept. */
  ghost predicate TellsImmediate(rows: seq<Rotation>, rows': seq<Rotation>, i: nat, e: Event, p: Payload, slotId: int,
                                 m: Message)
  {
    && IsPlaceOf(rows, i, RotatedEvent, e.id) && i < |rows'|
    && var r := rows'[i];
    && r.status == ImmediateApplied && r.slotId == slotId && r.appliedEvent == Some(e.id)
    && r.operator == (if m.operator.Some? then m.operator else p.operator)
    && r.oldAddress == p.oldAddress && r.newAddress == p.newAddress
    && r.effectiveHeight == p.effectiveHeight && r.power == p.power
    && r.messageId == Some(m.id) && r.requestedHeight == Some(m.height) && r.appliedHeight == Some(e.height)
    && if i < |rows| then
         && rows' == rows[i := r] && r.reason == rows[i].reason && r.requestEvent == rows[i].requestEvent
         && r.cancelledEvent == rows[i].cancelledEvent && r.cancelledHeight == rows[i].cancelledHeight
       else
         && rows' == rows + [r] && r.reason == None && r.requestEvent == None
         && r.cancelledEvent == None && r.cancelledHeight == None
  }

  /** A request's row: all of the request's fields; a new row is requested, and of one that is there the rest is
      kept. */
  ghost predicate TellsRequest(rows: seq<Rotation>, rows': seq<Rotation>, i: nat, e: Event, p: Payload, slotId: int,
                               operator: Option<string>, height: int, messageId: Option<nat>)
  {
    && IsPlaceOf(rows, i, RequestedEvent, e.id) && i < |rows'|
    && var r := rows'[i];
    && r.slotId == slotId && r.requestEvent == Some(e.id)
    && r.operator == (if operator.Some? then operator else p.operator)
    && r.oldAddress == p.oldAddress && r.newAddress == p.newAddress && r.effectiveHeight == p.effectiveHeight
    && r.messageId == messageId && r.requestedHeight == Some(height)
    && if i < |rows| then
         && rows' == rows[i := r] && r.status == rows[i].status && r.power == rows[i].power
         && r.reason == rows[i].reason
         && r.appliedEvent == rows[i].appliedEvent && r.appliedHeight == rows[i].appliedHeight
         && r.cancelledEvent == rows[i].cancelledEvent && r.cancelledHeight == rows[i].cancelledHeight
       else
         && rows' == rows + [r] && r.status == Requested && r.power == None && r.reason == None
         && r.appliedEvent == None && r.appliedHeight == None
         && r.cancelledEvent == None && r.cancelledHeight == None
  }

  /** Nothing but one more failure. */
  predicate OnlyFails(st: State, st': State, f: Failure) {
    && st'.rows == st.rows && st'.failures == st.failures + {f}
    && st'.written == st.written && st'.created == st.created + 1
  }

  /** One more row written, and a failure if one is given. */
  predicate Writes(st: State, st': State, f: Option<Failure>) {
    && st'.written == st.written + 1
    && (if f.None? then st'.failures == st.failures && st'.created == st.created
        else st'.failures == st.failures + {f.value} && st'.created == st.created + 1)
  }

  /** What a message does: the row of the event it takes, or the failure it is rejected with. */
  lemma MessageExactly(st: State, m: Message, d: Decision)
    ensures var st' := ProjectMessage(st, m, d);
            match d
            case Reject(kind, event) =>
              OnlyFails(st, st', Failure(kind, m.height, Some(m.id),
                                         if event.Some? then Some(event.value.id) else None))
            case TakeRequest(e, p, slotId) =>
              Writes(st, st', None)
              && exists i :: TellsRequest(st.rows, st'.rows, i, e, p, slotId, m.operator, m.height, Some(m.id))
            case TakeRotated(e, p, slotId) =>
              Writes(st, st', None) && exists i :: TellsImmediate(st.rows, st'.rows, i, e, p, slotId, m)
  {
    match d {
      case Reject(_, _) =>
      case TakeRequest(e, p, slotId) =>
        FoundExactly(st.rows, RequestedEvent, e.id);
        var at := FindRow(st.rows, RequestedEvent, e.id).GetOr(|st.rows|);
        assert TellsRequest(st.rows, ProjectMessage(st, m, d).rows, at, e, p, slotId, m.operator, m.height, Some(m.id));
      case TakeRotated(e, p, slotId) =>
        FoundExactly(st.rows, RotatedEvent, e.id);
        var at := FindRow(st.rows, RotatedEvent, e.id).GetOr(|st.rows|);
        assert TellsImmediate(st.rows, ProjectMessage(st, m, d).rows, at, e, p, slotId, m);
    }
  }

  // ---- events on their own ----

  /** Only events of the pass's kind, not taken by a message, whose transaction if named succeeded. */
  lemma PassedExactly(src: Source, used: Used, kind: EventKind, e: Event)
    ensures !Skipped(src, used, kind, e) <==>
            && e.kind == kind
            && (e.txHash == None || e.txHash.value in src.successful)
            && match kind
               case RequestedEvent => e.id !in used.requested
               case RotatedEvent => e.id !in used.rotated
               case CancelEvent => true
  {
  }

  /** A request without its message gets its row and a report; one without slot or payload only a report. */
  lemma OrphanRequestExactly(st: State, e: Event)
    requires e.kind == RequestedEvent
    ensures var st' := ProjectEvent(st, e);
            if e.slot == None then OnlyFails(st, st', Failure(InvalidSlotId, e.height, None, Some(e.id)))
            else
              match e.extracted
              case Bad(kind) => OnlyFails(st, st', Failure(kind, e.height, None, Some(e.id)))
              case Good(p) =>
                && Writes(st, st', Some(Failure(MissingMessage, e.height, None, Some(e.id))))
                && exists i :: TellsRequest(st.rows, st'.rows, i, e, p, e.slot.value, p.operator, e.height, None)
  {
    if e.slot.Some? && e.extracted.Good? {
      var p := e.extracted.payload;
      FoundExactly(st.rows, RequestedEvent, e.id);
      var at := FindRow(st.rows, RequestedEvent, e.id).GetOr(|st.rows|);
      assert TellsRequest(st.rows, ProjectEvent(st, e).rows, at, e, p, e.slot.value, p.operator, e.height, None);
    }
  }

  /** What an effect says of the row it settles; the rest of the row is kept. */
  predicate TellsSettled(old_: Rotation, r: Rotation, e: Event, p: Payload) {
    if e.kind == CancelEvent then
      r == old_.(status := Cancelled, cancelledEvent := Some(e.id), cancelledHeight := Some(e.height),
                 reason := p.reason)
    else
      r == old_.(status := Applied, appliedEvent := Some(e.id), appliedHeight := Some(e.height), power := p.power,
                 oldAddress := p.oldAddress, newAddress := p.newAddress, effectiveHeight := p.effectiveHeight)
  }

  /** The row of an effect that no request asked for. */
  predicate TellsOwn(r: Rotation, e: Event, p: Payload, slotId: int) {
    && r.slotId == slotId && r.operator == p.operator && r.oldAddress == p.oldAddress && r.newAddress == p.newAddress
    && r.messageId == None && r.requestedHeight == None && r.requestEvent == None
    && if e.kind == CancelEvent then
         && r.status == Cancelled && r.cancelledEvent == Some(e.id) && r.cancelledHeight == Some(e.height)
         && r.reason == p.reason && r.effectiveHeight == None && r.power == None
         && r.appliedEvent == None && r.appliedHeight == None
       else
         && r.status == Applied && r.appliedEvent == Some(e.id) && r.appliedHeight == Some(e.height)
         && r.effectiveHeight == p.effectiveHeight && r.power == p.power
         && r.reason == None && r.cancelledEvent == None && r.cancelledHeight == None
  }

  /** The open requests an effect may belong to: of its slot and new address, and of its effective height if it has
      one. */
  function OpenFor(rows: seq<Rotation>, slotId: int, p: Payload): set<nat> {
    set i: nat | i < |rows| && rows[i].status == Requested && rows[i].slotId == slotId
                 && rows[i].newAddress == p.newAddress
                 && (p.effectiveHeight == None || rows[i].effectiveHeight == p.effectiveHeight)
  }

  lemma OpenOneMore(rows: seq<Rotation>, slotId: int, p: Payload)
    requires rows != []
    ensures var n := |rows| - 1;
            && OpenFor(rows, slotId, p) ==
               OpenFor(rows[..n], slotId, p) + (if IsOpenRequest(rows[n], slotId, p) then {n} else {})
            && n !in OpenFor(rows[..n], slotId, p)
  {
  }

  lemma {:induction false} OpenExactly(rows: seq<Rotation>, slotId: int, p: Payload)
    ensures |OpenRequests(rows, slotId, p)| == |OpenFor(rows, slotId, p)|
    ensures forall i :: i in OpenRequests(rows, slotId, p) <==> i in OpenFor(rows, slotId, p)
  {
    if rows != [] {
      OpenExactly(rows[..|rows| - 1], slotId, p);
      OpenOneMore(rows, slotId, p);
    }
  }

  /** An application or cancellation: on the row it already drives, else on the only open request, else on its own row
      with a report; with several open requests, or without slot or payload, only a report. */
  lemma EffectExactly(st: State, e: Event)
    requires e.kind != RequestedEvent
    ensures var st' := ProjectEvent(st, e);
            if e.slot == None then OnlyFails(st, st', Failure(InvalidSlotId, e.height, None, Some(e.id)))
            else
              match e.extracted
              case Bad(kind) => OnlyFails(st, st', Failure(kind, e.height, None, Some(e.id)))
              case Good(p) => EffectLeadsTo(st, st', e, p, e.slot.value)
  {
    if e.slot.Some? && e.extracted.Good? {
      var p, slotId := e.extracted.payload, e.slot.value;
      FoundExactly(st.rows, e.kind, e.id);
      OpenExactly(st.rows, slotId, p);
      var at, open := FindRow(st.rows, e.kind, e.id), OpenRequests(st.rows, slotId, p);
      if at.Some? {
        assert Settles(st, ProjectEvent(st, e), at.value, e, p);
      } else if |open| == 1 {
        assert open[0] in open;
        assert Settles(st, ProjectEvent(st, e), open[0], e, p);
      }
    }
  }

  ghost predicate Settles(st: State, st': State, i: nat, e: Event, p: Payload) {
    && i < |st.rows| == |st'.rows| && st'.rows == st.rows[i := st'.rows[i]]
    && TellsSettled(st.rows[i], st'.rows[i], e, p) && Writes(st, st', None)
  }

  ghost predicate EffectLeadsTo(st: State, st': State, e: Event, p: Payload, slotId: int) {
    var open := OpenFor(st.rows, slotId, p);
    if exists i :: IsRowOf(st.rows, i, e.kind, e.id)
    then exists i: nat :: i < |st.rows| && IsPlaceOf(st.rows, i, e.kind, e.id) && Settles(st, st', i, e, p)
    else if |open| > 1 then OnlyFails(st, st', Failure(CorrelationFailed, e.height, None, Some(e.id)))
    else if |open| == 1 then exists i :: i in open && Settles(st, st', i, e, p)
    else
      && |st'.rows| == |st.rows| + 1 && st'.rows == st.rows + [st'.rows[|st.rows|]]
      && TellsOwn(st'.rows[|st.rows|], e, p, slotId)
      && Writes(st, st', Some(Failure(MissingRequest, e.height, None, Some(e.id))))
  }

  // ---- the order of the passes ----

  lemma PassOverThree(st: State, src: Source, used: Used, kind: EventKind, i: nat)
    requires |src.events| == 3 && i < 3
    requires forall k :: 0 <= k < 3 ==> (Skipped(src, used, kind, src.events[k]) <==> k != i)
    ensures ProjectEvents(st, src, used, kind, 3) == ProjectEvent(st, src.events[i])
  {
    assert ProjectEvents(st, src, used, kind, 0) == st;
    assert ProjectEvents(st, src, used, kind, 1) == if i == 0 then ProjectEvent(st, src.events[0]) else st;
    assert ProjectEvents(st, src, used, kind, 2) == if i == 2 then st else ProjectEvent(st, src.events[i]);
  }

  /** The only open request is settled by an effect that no row names. */
  lemma SettlesTheOnlyRow(st: State, e: Event, p: Payload)
    requires e.kind == RotatedEvent && e.slot.Some? && e.extracted == Good(p)
    requires |st.rows| == 1 && st.rows[0].appliedEvent == None
    requires st.rows[0].status == Requested && st.rows[0].slotId == e.slot.value
    requires st.rows[0].newAddress == p.newAddress && st.rows[0].effectiveHeight == p.effectiveHeight
    ensures Settles(st, ProjectEvent(st, e), 0, e, p)
  {
    EffectExactly(st, e);
    assert OpenFor(st.rows, e.slot.value, p) == {0};
    assert forall i: nat :: !IsRowOf(st.rows, i, RotatedEvent, e.id);
    var i :| i in OpenFor(st.rows, e.slot.value, p) && Settles(st, ProjectEvent(st, e), i, e, p);
  }

  /** An effect that meets only a settled row of another event stands alone. */
  lemma MeetsNoRequest(st: State, e: Event, p: Payload)
    requires e.kind == CancelEvent && e.slot.Some? && e.extracted == Good(p)
    requires |st.rows| == 1 && st.rows[0].status != Requested && st.rows[0].cancelledEvent == None
    ensures var st' := ProjectEvent(st, e);
            && |st'.rows| == 2 && st'.rows[0] == st.rows[0] && TellsOwn(st'.rows[1], e, p, e.slot.value)
            && Writes(st, st', Some(Failure(MissingRequest, e.height, None, Some(e.id))))
  {
    EffectExactly(st, e);
    assert OpenFor(st.rows, e.slot.value, p) == {};
    assert forall i: nat :: !IsRowOf(st.rows, i, CancelEvent, e.id);
  }

  /** A request stored first. */
  lemma FirstRequest(st: State, e: Event, p: Payload)
    requires e.kind == RequestedEvent && e.slot.Some? && e.extracted == Good(p) && st.rows == []
    ensures var st' := ProjectEvent(st, e);
            && |st'.rows| == 1 && TellsRequest([], st'.rows, 0, e, p, e.slot.value, p.operator, e.height, None)
            && Writes(st, st', Some(Failure(MissingMessage, e.height, None, Some(e.id))))
  {
    OrphanRequestExactly(st, e);
  }

  /** A cancellation, an application and a request of one rotation at one height, in whichever order of ids: the request
      comes first, the application settles it, and the cancellation, too late, stands alone. */
  lemma RequestsThenApplicationsThenCancellations(height: int, request: Event, applied: Event, cancelled: Event,
                                                  p: Payload, slotId: int)
    requires request.kind == RequestedEvent && applied.kind == RotatedEvent && cancelled.kind == CancelEvent
    requires request.height == height && request.txHash == None && request.slot == Some(slotId)
             && request.extracted == Good(p)
    requires applied.height == height && applied.txHash == None && applied.slot == Some(slotId)
             && applied.extracted == Good(p)
    requires cancelled.height == height && cancelled.txHash == None && cancelled.slot == Some(slotId)
             && cancelled.extracted == Good(p)
    ensures var st := ProjectHeight(State([], {}, 0, 0), height, Source([], [cancelled, applied, request], {}));
            && |st.rows| == 2
            && st.rows[0].status == Applied && st.rows[0].requestEvent == Some(request.id)
            && st.rows[0].appliedEvent == Some(applied.id) && st.rows[0].cancelledEvent == None
            && st.rows[1].status == Cancelled && st.rows[1].cancelledEvent == Some(cancelled.id)
            && st.failures == {Failure(MissingMessage, height, None, Some(request.id)),
                               Failure(MissingRequest, height, None, Some(cancelled.id))}
            && st.written == 3 && st.created == 2
  {
    var src := Source([], [cancelled, applied, request], {});
    var used := UsedBy(src, 0);
    var start := Cleared(State([], {}, 0, 0), height);
    assert start == State([], {}, 0, 0);
    PassOverThree(start, src, used, RequestedEvent, 2);
    var requested := ProjectEvent(start, request);
    FirstRequest(start, request, p);
    PassOverThree(requested, src, used, RotatedEvent, 1);
    var settled := ProjectEvent(requested, applied);
    SettlesTheOnlyRow(requested, applied, p);
    PassOverThree(settled, src, used, CancelEvent, 0);
    MeetsNoRequest(settled, cancelled, p);
  }

  /** A height without messages and events only loses its failures. */
  lemma QuietHeight(st: State, height: int)
    ensures var st' := ProjectHeight(st, height, Source([], [], {}));
            && st'.rows == st.rows && st'.written == 0 && st'.created == 0
            && forall f :: f in st'.failures <==> f in st.failures && f.height != height
  {
  }
}
