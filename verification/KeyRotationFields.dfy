/** What a rotation row keeps of its request over every run, and exactly what projecting the request's height
    again rewrites. */
module KeyRotationFields {
  import opened Wrappers
  import opened KeyRotation
  import opened KeyRotationSafety

  // ---- events by their id ----

  ghost predicate Known(sources: Sources, kind: EventKind, id: nat) {
    exists e: Event :: e in sources(e.height).events && e.kind == kind && e.id == id
  }

  ghost function EventById(sources: Sources, kind: EventKind, id: nat): (e: Event)
    requires Known(sources, kind, id)
    ensures e in sources(e.height).events && e.kind == kind && e.id == id
  {
    var e: Event :| e in sources(e.height).events && e.kind == kind && e.id == id;
    e
  }

  lemma EventIsItself(sources: Sources, height: int, e: Event)
    requires WellFormed(sources) && e in sources(height).events
    ensures e.height == height && Known(sources, e.kind, e.id) && EventById(sources, e.kind, e.id) == e
  {
    assert e in sources(e.height).events;
    var found := EventById(sources, e.kind, e.id);
    assert found in sources(found.height).events && found.id == e.id;
  }

  // ---- the row a request makes ----

  /** The message, among the first `n` of the height, that takes the request. */
  function TakenBy(src: Source, n: nat, id: nat): Option<Message>
    requires n <= |src.messages|
  {
    if n == 0 then None
    else
      var d := Decide(src, src.messages[n - 1], UsedBy(src, n - 1));
      if d.TakeRequest? && d.e.id == id then Some(src.messages[n - 1]) else TakenBy(src, n - 1, id)
  }

  /** What a request says of its row: with the message that takes it, else on its own; nothing when it is not
      stored. */
  function RequestOf(src: Source, e: Event): Option<Rotation> {
    var m := TakenBy(src, |src.messages|, e.id);
    if e.extracted.Bad? then None
    else if m.Some? then
      if m.value.slot.None? then None
      else Some(RequestRow(None, e, e.extracted.payload, m.value.slot.value, m, m.value.operator))
    else if e.slot.None? || IsFailedTxBound(e, src) then None
    else Some(RequestRow(None, e, e.extracted.payload, e.slot.value, None, e.extracted.payload.operator))
  }

  lemma DecisionNames(src: Source, m: Message, used: Used)
    ensures var d := Decide(src, m, used);
            && (d.TakeRequest? ==> m.slot == Some(d.slotId) && d.e.extracted == Good(d.p) && d.e.id !in used.requested)
            && (d.TakeRotated? ==> m.slot == Some(d.slotId) && d.e.extracted == Good(d.p))
  {
    if m.slot.Some? {
      var requested := Matches(src.events, RequestedEvent, m, m.slot.value, used.requested);
      MatchesAreUnused(src.events, RequestedEvent, m, m.slot.value, used.requested);
      if |requested| == 1 {
        assert requested[0] in requested;
      }
    }
  }

  lemma {:induction false} MatchesAreUnused(events: seq<Event>, kind: EventKind, m: Message, slotId: int,
                                            used: set<nat>)
    ensures forall e :: e in Matches(events, kind, m, slotId, used) ==> e.id !in used
  {
    if events != [] {
      MatchesAreUnused(events[..|events| - 1], kind, m, slotId, used);
    }
  }

  lemma {:induction false} TakenExactly(src: Source, n: nat, id: nat)
    requires n <= |src.messages|
    ensures TakenBy(src, n, id).Some? <==> id in UsedBy(src, n).requested
  {
    if n > 0 {
      TakenExactly(src, n - 1, id);
    }
  }

  /** A request is taken once. */
  lemma {:induction false} TakenStays(src: Source, n: nat, k: nat, id: nat)
    requires n <= k <= |src.messages| && TakenBy(src, n, id).Some?
    ensures TakenBy(src, k, id) == TakenBy(src, n, id)
  {
    if n < k {
      TakenStays(src, n, k - 1, id);
      TakenExactly(src, k - 1, id);
      DecisionNames(src, src.messages[k - 1], UsedBy(src, k - 1));
    }
  }

  lemma TakenRequestIs(src: Source, n: nat)
    requires n < |src.messages| && Decide(src, src.messages[n], UsedBy(src, n)).TakeRequest?
    ensures var m, d := src.messages[n], Decide(src, src.messages[n], UsedBy(src, n));
            RequestOf(src, d.e) == Some(RequestRow(None, d.e, d.p, d.slotId, Some(m), m.operator))
  {
    var d := Decide(src, src.messages[n], UsedBy(src, n));
    DecisionNames(src, src.messages[n], UsedBy(src, n));
    TakenStays(src, n + 1, |src.messages|, d.e.id);
  }

  lemma OrphanRequestIs(src: Source, e: Event)
    requires e.id !in UsedBy(src, |src.messages|).requested && !IsFailedTxBound(e, src) && Defect(e).None?
    ensures RequestOf(src, e) ==
            Some(RequestRow(None, e, e.extracted.payload, e.slot.value, None, e.extracted.payload.operator))
  {
    TakenExactly(src, |src.messages|, e.id);
  }

  // ---- what rows say ----

  /** The row names the request's slot, new address, operator, height and message; until it is applied, also its
      old address and effective height. */
  predicate KeepsRequest(r: Rotation, f: Rotation) {
    && r.slotId == f.slotId && r.newAddress == f.newAddress && r.operator == f.operator
    && r.requestedHeight == f.requestedHeight && r.messageId == f.messageId
    && (r.status != Applied ==> r.oldAddress == f.oldAddress && r.effectiveHeight == f.effectiveHeight)
  }

  ghost predicate RequestKnown(sources: Sources, r: Rotation) {
    && r.requestEvent.Some? && Known(sources, RequestedEvent, r.requestEvent.value)
    && var e := EventById(sources, RequestedEvent, r.requestEvent.value);
       RequestOf(sources(e.height), e).Some?
  }

  /** What the row's request says of it. */
  ghost function RequestFor(sources: Sources, r: Rotation): Rotation
    requires RequestKnown(sources, r)
  {
    var e := EventById(sources, RequestedEvent, r.requestEvent.value);
    RequestOf(sources(e.height), e).value
  }

  ghost predicate ApplicationKnown(sources: Sources, r: Rotation) {
    && r.appliedEvent.Some? && Known(sources, RotatedEvent, r.appliedEvent.value)
    && EventById(sources, RotatedEvent, r.appliedEvent.value).extracted.Good?
  }

  /** The payload of the event that applied the row. */
  ghost function ApplicationFor(sources: Sources, r: Rotation): Payload
    requires ApplicationKnown(sources, r)
  {
    EventById(sources, RotatedEvent, r.appliedEvent.value).extracted.payload
  }

  /** A row agrees with its request, and an application with the request it settled: on the new address always,
      on the effective height where it names one. */
  ghost predicate Told(sources: Sources, r: Rotation) {
    && (r.requestEvent.Some? ==> RequestKnown(sources, r) && KeepsRequest(r, RequestFor(sources, r)))
    && (r.appliedEvent.Some? ==> ApplicationKnown(sources, r) && r.newAddress == ApplicationFor(sources, r).newAddress)
    && (r.requestEvent.Some? && r.appliedEvent.Some? ==>
          var q := ApplicationFor(sources, r);
          q.effectiveHeight.None? || q.effectiveHeight == RequestFor(sources, r).effectiveHeight)
    && (r.status == ImmediateApplied ==> r.requestEvent.None?)
  }

  ghost predicate AllTold(sources: Sources, rows: seq<Rotation>) {
    forall i :: 0 <= i < |rows| ==> Told(sources, rows[i])
  }

  // ---- each writer ----

  /** Storing a request again rewrites two fields of its row at most. */
  function Rewritten(r: Rotation, f: Rotation): Rotation {
    r.(oldAddress := f.oldAddress, effectiveHeight := f.effectiveHeight)
  }

  lemma RequestAgain(r: Rotation, e: Event, p: Payload, slotId: int, m: Option<Message>, operator: Option<string>)
    requires KeepsRequest(r, RequestRow(None, e, p, slotId, m, operator))
    ensures RequestRow(Some(r), e, p, slotId, m, operator) == Rewritten(r, RequestRow(None, e, p, slotId, m, operator))
  {
  }

  lemma RequestStaysTold(sources: Sources, height: int, rows: seq<Rotation>, e: Event, p: Payload, slotId: int,
                         m: Option<Message>, operator: Option<string>)
    requires WellFormed(sources) && AllTold(sources, rows) && e in sources(height).events && e.kind == RequestedEvent
    requires RequestOf(sources(height), e) == Some(RequestRow(None, e, p, slotId, m, operator))
    ensures AllTold(sources, UpsertRequested(rows, e, p, slotId, m, operator))
  {
    var at := FindRow(rows, RequestedEvent, e.id);
    var f := RequestRow(None, e, p, slotId, m, operator);
    EventIsItself(sources, height, e);
    if at.Some? {
      var r := rows[at.value];
      assert Told(sources, r) && RequestFor(sources, r) == f;
      RequestAgain(r, e, p, slotId, m, operator);
      assert Told(sources, Rewritten(r, f));
    } else {
      assert RequestFor(sources, f) == f;
      assert Told(sources, f);
    }
  }

  lemma ImmediateStaysTold(sources: Sources, height: int, rows: seq<Rotation>, e: Event, p: Payload, slotId: int,
                           m: Message)
    requires WellFormed(sources) && Inv(sources, rows) && AllTold(sources, rows)
    requires e in sources(height).events && e.kind == RotatedEvent && e.extracted == Good(p)
    requires IsImmediate(sources(height), e.id)
    ensures AllTold(sources, UpsertImmediate(rows, e, p, slotId, m))
  {
    var at := FindRow(rows, RotatedEvent, e.id);
    EventIsItself(sources, height, e);
    var r := ImmediateRow(RowAt(rows, at), e, p, slotId, m);
    if at.Some? {
      AppliedHere(sources, rows, at.value, height, e);
      assert Told(sources, rows[at.value]);
    }
    assert Told(sources, r);
  }

  lemma MarkStaysTold(sources: Sources, height: int, rows: seq<Rotation>, e: Event, p: Payload, at: nat)
    requires WellFormed(sources) && Inv(sources, rows) && AllTold(sources, rows) && at < |rows|
    requires e in sources(height).events && e.kind != RequestedEvent && e.extracted == Good(p)
    requires e.kind == RotatedEvent ==> !IsImmediate(sources(height), e.id)
    requires EventOf(rows[at], e.kind) == Some(e.id) || (exists slotId :: IsOpenRequest(rows[at], slotId, p))
    ensures Told(sources, Mark(rows[at], e, p))
  {
    var r := rows[at];
    assert Told(sources, r) && RowOk(sources, r);
    EventIsItself(sources, height, e);
    if e.kind == RotatedEvent && r.appliedEvent == Some(e.id) {
      AppliedHere(sources, rows, at, height, e);
    }
  }

  lemma ReplacedStayTold(sources: Sources, rows: seq<Rotation>, at: nat, r: Rotation)
    requires AllTold(sources, rows) && at < |rows| && Told(sources, r)
    ensures AllTold(sources, rows[at := r])
  {
  }

  lemma AddedStayTold(sources: Sources, rows: seq<Rotation>, r: Rotation)
    requires AllTold(sources, rows) && Told(sources, r)
    ensures AllTold(sources, rows + [r])
  {
  }

  lemma OwnRowIsTold(sources: Sources, height: int, e: Event, p: Payload, slotId: int)
    requires WellFormed(sources) && e in sources(height).events && e.kind != RequestedEvent && e.extracted == Good(p)
    ensures Told(sources, OwnRow(e, p, slotId))
  {
    EventIsItself(sources, height, e);
  }

  // ---- each step ----

  lemma MessageStaysTold(sources: Sources, height: int, st: State, n: nat)
    requires WellFormed(sources) && Inv(sources, st.rows) && AllTold(sources, st.rows) && n < |sources(height).messages|
    ensures var src := sources(height);
            AllTold(sources, ProjectMessage(st, src.messages[n], Decide(src, src.messages[n], UsedBy(src, n))).rows)
  {
    var src := sources(height);
    var m, d := src.messages[n], Decide(src, src.messages[n], UsedBy(src, n));
    DecisionsAreSound(src, n);
    DecisionNames(src, m, UsedBy(src, n));
    match d {
      case Reject(_, _) =>
      case TakeRequest(e, p, slotId) =>
        TakenRequestIs(src, n);
        RequestStaysTold(sources, height, st.rows, e, p, slotId, Some(m), m.operator);
      case TakeRotated(e, p, slotId) =>
        ImmediateStaysTold(sources, height, st.rows, e, p, slotId, m);
    }
  }

  lemma EffectStaysTold(sources: Sources, height: int, st: State, e: Event)
    requires WellFormed(sources) && Inv(sources, st.rows) && AllTold(sources, st.rows)
    requires e in sources(height).events && e.kind != RequestedEvent
    requires e.kind == RotatedEvent ==> !IsImmediate(sources(height), e.id)
    ensures AllTold(sources, ProjectEffect(st, e).rows)
  {
    if Defect(e).None? {
      var p, slotId := e.extracted.payload, e.slot.value;
      var at, open := FindRow(st.rows, e.kind, e.id), OpenRequests(st.rows, slotId, p);
      if at.Some? {
        MarkStaysTold(sources, height, st.rows, e, p, at.value);
        ReplacedStayTold(sources, st.rows, at.value, Mark(st.rows[at.value], e, p));
      } else if |open| == 1 {
        assert open[0] in open;
        assert IsOpenRequest(st.rows[open[0]], slotId, p);
        MarkStaysTold(sources, height, st.rows, e, p, open[0]);
        ReplacedStayTold(sources, st.rows, open[0], Mark(st.rows[open[0]], e, p));
      } else if open == [] {
        OwnRowIsTold(sources, height, e, p, slotId);
        AddedStayTold(sources, st.rows, OwnRow(e, p, slotId));
      }
    }
  }

  lemma EventStaysTold(sources: Sources, height: int, st: State, kind: EventKind, e: Event)
    requires WellFormed(sources) && Inv(sources, st.rows) && AllTold(sources, st.rows) && e in sources(height).events
    requires !Skipped(sources(height), UsedBy(sources(height), |sources(height).messages|), kind, e)
    ensures AllTold(sources, ProjectEvent(st, e).rows)
  {
    if e.kind != RequestedEvent {
      EffectStaysTold(sources, height, st, e);
    } else if Defect(e).None? {
      OrphanRequestIs(sources(height), e);
      RequestStaysTold(sources, height, st.rows, e, e.extracted.payload, e.slot.value, None,
                       e.extracted.payload.operator);
    }
  }

  ghost predicate Sound(sources: Sources, rows: seq<Rotation>) {
    Inv(sources, rows) && AllTold(sources, rows)
  }

  lemma MessageStaysSound(sources: Sources, height: int, st: State, n: nat, m: Message, d: Decision)
    requires WellFormed(sources) && Sound(sources, st.rows) && n < |sources(height).messages|
    requires m == sources(height).messages[n] && d == Decide(sources(height), m, UsedBy(sources(height), n))
    ensures Sound(sources, ProjectMessage(st, m, d).rows)
  {
    DecisionsAreSound(sources(height), n);
    MessageSteps(sources, height, st, m, d);
    MessageStaysTold(sources, height, st, n);
  }

  lemma {:induction false} MessagesStaySound(sources: Sources, height: int, st: State, n: nat)
    requires WellFormed(sources) && Sound(sources, st.rows) && n <= |sources(height).messages|
    ensures Sound(sources, ProjectMessages(st, sources(height), n).rows)
  {
    if n > 0 {
      var src := sources(height);
      var before, m := ProjectMessages(st, src, n - 1), src.messages[n - 1];
      var d := Decide(src, m, UsedBy(src, n - 1));
      MessagesStaySound(sources, height, st, n - 1);
      MessageStaysSound(sources, height, before, n - 1, m, d);
    }
  }

  lemma EventStaysSound(sources: Sources, height: int, st: State, kind: EventKind, e: Event)
    requires WellFormed(sources) && Sound(sources, st.rows) && e in sources(height).events
    requires !Skipped(sources(height), UsedBy(sources(height), |sources(height).messages|), kind, e)
    ensures Sound(sources, ProjectEvent(st, e).rows)
  {
    EventSteps(sources, height, st, e);
    EventStaysTold(sources, height, st, kind, e);
  }

  lemma {:induction false} EventsStaySound(sources: Sources, height: int, kind: EventKind, st: State, n: nat)
    requires WellFormed(sources) && Sound(sources, st.rows) && n <= |sources(height).events|
    ensures var src := sources(height);
            Sound(sources, ProjectEvents(st, src, UsedBy(src, |src.messages|), kind, n).rows)
  {
    var src := sources(height);
    if n > 0 {
      var used := UsedBy(src, |src.messages|);
      EventsStaySound(sources, height, kind, st, n - 1);
      if !Skipped(src, used, kind, src.events[n - 1]) {
        EventStaysSound(sources, height, ProjectEvents(st, src, used, kind, n - 1), kind, src.events[n - 1]);
      }
    }
  }

  lemma HeightStaysSound(sources: Sources, height: int, st: State)
    requires WellFormed(sources) && Sound(sources, st.rows)
    ensures Sound(sources, ProjectHeight(st, height, sources(height)).rows)
  {
    var src := sources(height);
    var used := UsedBy(src, |src.messages|);
    var messages := ProjectMessages(Cleared(st, height), src, |src.messages|);
    var requests := ProjectEvents(messages, src, used, RequestedEvent, |src.events|);
    var applied := ProjectEvents(requests, src, used, RotatedEvent, |src.events|);
    MessagesStaySound(sources, height, Cleared(st, height), |src.messages|);
    EventsStaySound(sources, height, RequestedEvent, messages, |src.events|);
    EventsStaySound(sources, height, RotatedEvent, requests, |src.events|);
    EventsStaySound(sources, height, CancelEvent, applied, |src.events|);
  }

  lemma {:induction false} RunStaysSound(sources: Sources, st: State, heights: seq<int>)
    requires WellFormed(sources) && Sound(sources, st.rows)
    ensures Sound(sources, Run(sources, st, heights).rows)
  {
    if heights != [] {
      var n := |heights| - 1;
      RunStaysSound(sources, st, heights[..n]);
      HeightStaysSound(sources, heights[n], Run(sources, st, heights[..n]));
    }
  }

  // ---- what a row keeps ----

  /** Over every run, a row keeps the slot, the new address, the operator, the height and the message of its
      request, whatever settles it and however often its heights are projected again. */
  lemma RowsKeepTheirRequest(sources: Sources, heights: seq<int>, more: seq<int>, i: nat)
    requires WellFormed(sources)
    requires i < |Run(sources, State([], {}, 0, 0), heights).rows|
    requires Run(sources, State([], {}, 0, 0), heights).rows[i].requestEvent.Some?
    ensures var before := Run(sources, State([], {}, 0, 0), heights);
            var r, rows' := before.rows[i], Run(sources, before, more).rows;
            && i < |rows'| && rows'[i].requestEvent == r.requestEvent
            && rows'[i].slotId == r.slotId && rows'[i].newAddress == r.newAddress && rows'[i].operator == r.operator
            && rows'[i].requestedHeight == r.requestedHeight && rows'[i].messageId == r.messageId
  {
    var before := Run(sources, State([], {}, 0, 0), heights);
    RunStaysSound(sources, State([], {}, 0, 0), heights);
    RunStaysSound(sources, before, more);
    RunKeeps(sources, before, more);
    var rows' := Run(sources, before, more).rows;
    assert RowEvolves(before.rows[i], rows'[i]);
    assert EventOf(before.rows[i], RequestedEvent).Some?;
    assert Told(sources, before.rows[i]) && Told(sources, rows'[i]);
  }
}
