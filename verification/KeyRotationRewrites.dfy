/** Exactly what projecting a request's height again does to a row that was applied in the meantime. */
module KeyRotationRewrites {
  import opened Wrappers
  import opened KeyRotation
  import opened KeyRotationSafety
  import opened KeyRotationFields

  /** The request event of a height, and what it says of its row. */
  ghost predicate IsRequest(src: Source, e: Event, f: Rotation) {
    e in src.events && e.kind == RequestedEvent && RequestOf(src, e) == Some(f)
  }

  /** The row was requested by this event and applied at another height. */
  predicate AppliedElsewhere(r: Rotation, f: Rotation, height: int, e: Event) {
    && r.status == Applied && r.appliedHeight != Some(height)
    && r.requestEvent == Some(e.id) && KeepsRequest(r, f)
  }

  predicate RowIs(rows: seq<Rotation>, i: nat, r: Rotation) {
    i < |rows| && rows[i] == r
  }

  // ---- the writers ----

  lemma FoundAtItsRow(rows: seq<Rotation>, kind: EventKind, i: nat, id: nat)
    requires Unique(rows, kind) && i < |rows| && EventOf(rows[i], kind) == Some(id)
    ensures FindRow(rows, kind, id) == Some(i)
  {
  }

  lemma RequestRewrites(rows: seq<Rotation>, i: nat, height: int, e: Event, f: Rotation, other: Event, p: Payload,
                        slotId: int, m: Option<Message>, operator: Option<string>)
    requires Unique(rows, RequestedEvent) && i < |rows| && AppliedElsewhere(rows[i], f, height, e)
    requires other.id == e.id ==> f == RequestRow(None, other, p, slotId, m, operator)
    ensures RowIs(UpsertRequested(rows, other, p, slotId, m, operator), i,
                  if other.id == e.id then Rewritten(rows[i], f) else rows[i])
  {
    if other.id == e.id {
      FoundAtItsRow(rows, RequestedEvent, i, other.id);
      RequestAgain(rows[i], other, p, slotId, m, operator);
    }
  }

  lemma ImmediateLeavesRow(rows: seq<Rotation>, i: nat, other: Event, p: Payload, slotId: int, m: Message)
    requires i < |rows| && rows[i].appliedEvent != Some(other.id)
    ensures RowIs(UpsertImmediate(rows, other, p, slotId, m), i, rows[i])
  {
  }

  lemma EffectLeavesRow(st: State, i: nat, other: Event)
    requires i < |st.rows| && EventOf(st.rows[i], other.kind) != Some(other.id) && st.rows[i].status != Requested
    ensures RowIs(ProjectEffect(st, other).rows, i, st.rows[i])
  {
    if Defect(other).None? {
      var open := OpenRequests(st.rows, other.slot.value, other.extracted.payload);
      if |open| == 1 {
        assert open[0] in open;
      }
    }
  }

  /** No application or cancellation of this height is the row's. */
  lemma EffectIsAnothers(sources: Sources, rows: seq<Rotation>, i: nat, height: int, other: Event)
    requires WellFormed(sources) && Inv(sources, rows) && i < |rows|
    requires rows[i].status == Applied && rows[i].appliedHeight != Some(height)
    requires other in sources(height).events && other.kind != RequestedEvent
    ensures EventOf(rows[i], other.kind) != Some(other.id)
  {
    assert RowOk(sources, rows[i]);
    if other.kind == RotatedEvent && rows[i].appliedEvent == Some(other.id) {
      AppliedHere(sources, rows, i, height, other);
    }
  }

  lemma RequestsAreUnique(sources: Sources, rows: seq<Rotation>)
    requires Inv(sources, rows)
    ensures Unique(rows, RequestedEvent)
  {
  }

  lemma SameEvent(sources: Sources, height: int, e: Event, other: Event)
    requires WellFormed(sources) && e in sources(height).events && other in sources(height).events && other.id == e.id
    ensures other == e
  {
  }

  // ---- the passes ----

  lemma MessageRewrites(sources: Sources, st: State, i: nat, height: int, e: Event, f: Rotation, n: nat, m: Message,
                        d: Decision)
    requires WellFormed(sources) && Inv(sources, st.rows) && IsRequest(sources(height), e, f)
    requires i < |st.rows| && AppliedElsewhere(st.rows[i], f, height, e)
    requires n < |sources(height).messages| && m == sources(height).messages[n]
    requires d == Decide(sources(height), m, UsedBy(sources(height), n))
    ensures RowIs(ProjectMessage(st, m, d).rows, i,
                  if d.TakeRequest? && d.e.id == e.id then Rewritten(st.rows[i], f) else st.rows[i])
  {
    DecisionsAreSound(sources(height), n);
    RequestsAreUnique(sources, st.rows);
    match d {
      case Reject(_, _) =>
      case TakeRequest(other, p, slotId) =>
        TakenRequestIs(sources(height), n);
        if other.id == e.id {
          SameEvent(sources, height, e, other);
        }
        RequestRewrites(st.rows, i, height, e, f, other, p, slotId, Some(m), m.operator);
      case TakeRotated(other, p, slotId) =>
        EffectIsAnothers(sources, st.rows, i, height, other);
        ImmediateLeavesRow(st.rows, i, other, p, slotId, m);
    }
  }

  lemma EventRewrites(sources: Sources, st: State, i: nat, height: int, e: Event, f: Rotation, kind: EventKind,
                      other: Event)
    requires WellFormed(sources) && Inv(sources, st.rows) && IsRequest(sources(height), e, f)
    requires i < |st.rows| && AppliedElsewhere(st.rows[i], f, height, e)
    requires other in sources(height).events
    requires !Skipped(sources(height), UsedBy(sources(height), |sources(height).messages|), kind, other)
    ensures RowIs(ProjectEvent(st, other).rows, i,
                  if kind == RequestedEvent && other.id == e.id then Rewritten(st.rows[i], f) else st.rows[i])
  {
    var src := sources(height);
    RequestsAreUnique(sources, st.rows);
    if other.kind != RequestedEvent {
      EffectIsAnothers(sources, st.rows, i, height, other);
      EffectLeavesRow(st, i, other);
    } else {
      if other.id == e.id {
        SameEvent(sources, height, e, other);
        TakenExactly(src, |src.messages|, e.id);
      }
      if Defect(other).None? {
        OrphanRequestIs(src, other);
        RequestRewrites(st.rows, i, height, e, f, other, other.extracted.payload, other.slot.value, None,
                        other.extracted.payload.operator);
      }
    }
  }

  /** A row, and what it becomes when its request is stored again. */
  predicate Pair(r: Rotation, g: Rotation, f: Rotation, height: int, e: Event) {
    AppliedElsewhere(r, f, height, e) && g == Rewritten(r, f)
  }

  lemma PairIsStable(r: Rotation, g: Rotation, f: Rotation, height: int, e: Event)
    requires Pair(r, g, f, height, e)
    ensures AppliedElsewhere(g, f, height, e) && Rewritten(g, f) == g
  {
  }

  lemma UsedNext(src: Source, n: nat, id: nat)
    requires 0 < n <= |src.messages|
    ensures var d := Decide(src, src.messages[n - 1], UsedBy(src, n - 1));
            id in UsedBy(src, n).requested <==> id in UsedBy(src, n - 1).requested || (d.TakeRequest? && d.e.id == id)
  {
  }

  lemma MessagePasses(sources: Sources, st: State, i: nat, r: Rotation, g: Rotation, height: int, e: Event, f: Rotation,
                      n: nat, m: Message, d: Decision, before: bool)
    requires WellFormed(sources) && Inv(sources, st.rows) && IsRequest(sources(height), e, f)
             && Pair(r, g, f, height, e)
    requires RowIs(st.rows, i, if before then g else r)
    requires n < |sources(height).messages| && m == sources(height).messages[n]
    requires d == Decide(sources(height), m, UsedBy(sources(height), n))
    ensures RowIs(ProjectMessage(st, m, d).rows, i, if before || (d.TakeRequest? && d.e.id == e.id) then g else r)
  {
    PairIsStable(r, g, f, height, e);
    MessageRewrites(sources, st, i, height, e, f, n, m, d);
  }

  lemma {:induction false} MessagesRewrite(sources: Sources, st: State, i: nat, r: Rotation, g: Rotation, height: int,
                                           e: Event, f: Rotation, n: nat)
    requires WellFormed(sources) && Inv(sources, st.rows) && IsRequest(sources(height), e, f)
             && Pair(r, g, f, height, e)
    requires RowIs(st.rows, i, r) && n <= |sources(height).messages|
    ensures RowIs(ProjectMessages(st, sources(height), n).rows, i,
                  if e.id in UsedBy(sources(height), n).requested then g else r)
  {
    if n > 0 {
      var src := sources(height);
      var m := src.messages[n - 1];
      var d := Decide(src, m, UsedBy(src, n - 1));
      MessagesRewrite(sources, st, i, r, g, height, e, f, n - 1);
      MessagesStep(sources, height, st, n - 1);
      UsedNext(src, n, e.id);
      MessagePasses(sources, ProjectMessages(st, src, n - 1), i, r, g, height, e, f, n - 1, m, d,
                    e.id in UsedBy(src, n - 1).requested);
    }
  }

  /** The pass over the first `n` events stores the request. */
  ghost predicate PassStores(src: Source, kind: EventKind, n: nat, e: Event)
    requires n <= |src.events|
  {
    kind == RequestedEvent && e in src.events[..n] && !Skipped(src, UsedBy(src, |src.messages|), kind, e)
  }

  lemma PassStoresNext(sources: Sources, height: int, kind: EventKind, n: nat, e: Event)
    requires WellFormed(sources) && 0 < n <= |sources(height).events| && e in sources(height).events
             && e.kind == RequestedEvent
    ensures var src := sources(height);
            PassStores(src, kind, n, e) <==>
            || PassStores(src, kind, n - 1, e)
            || (!Skipped(src, UsedBy(src, |src.messages|), kind, src.events[n - 1])
                && kind == RequestedEvent && src.events[n - 1].id == e.id)
  {
    var src := sources(height);
    assert src.events[..n] == src.events[..n - 1] + [src.events[n - 1]];
    assert src.events[n - 1] in src.events;
  }

  lemma EventPasses(sources: Sources, st: State, i: nat, r: Rotation, g: Rotation, height: int, e: Event, f: Rotation,
                    kind: EventKind, other: Event, before: bool)
    requires WellFormed(sources) && Inv(sources, st.rows) && IsRequest(sources(height), e, f)
             && Pair(r, g, f, height, e)
    requires RowIs(st.rows, i, if before then g else r) && other in sources(height).events
    requires !Skipped(sources(height), UsedBy(sources(height), |sources(height).messages|), kind, other)
    ensures RowIs(ProjectEvent(st, other).rows, i,
                  if before || (kind == RequestedEvent && other.id == e.id) then g else r)
  {
    PairIsStable(r, g, f, height, e);
    EventRewrites(sources, st, i, height, e, f, kind, other);
  }

  lemma {:induction false} EventsRewrite(sources: Sources, st: State, i: nat, r: Rotation, g: Rotation, height: int,
                                         e: Event, f: Rotation, kind: EventKind, n: nat, before: bool)
    requires WellFormed(sources) && Inv(sources, st.rows) && IsRequest(sources(height), e, f)
             && Pair(r, g, f, height, e)
    requires RowIs(st.rows, i, if before then g else r) && n <= |sources(height).events|
    ensures var src := sources(height);
            RowIs(ProjectEvents(st, src, UsedBy(src, |src.messages|), kind, n).rows, i,
                  if before || PassStores(src, kind, n, e) then g else r)
  {
    if n > 0 {
      var src := sources(height);
      var used, other := UsedBy(src, |src.messages|), src.events[n - 1];
      PassStoresNext(sources, height, kind, n, e);
      EventsRewrite(sources, st, i, r, g, height, e, f, kind, n - 1, before);
      if !Skipped(src, used, kind, other) {
        EventsStep(sources, height, used, kind, st, n - 1);
        EventPasses(sources, ProjectEvents(st, src, used, kind, n - 1), i, r, g, height, e, f, kind, other,
                    before || PassStores(src, kind, n - 1, e));
      }
    }
  }

  /** The request is stored once, by the message that takes it or in the second pass. */
  lemma StoredEitherWay(src: Source, e: Event, f: Rotation)
    requires IsRequest(src, e, f)
    ensures e.id in UsedBy(src, |src.messages|).requested || PassStores(src, RequestedEvent, |src.events|, e)
  {
    TakenExactly(src, |src.messages|, e.id);
    assert src.events[..|src.events|] == src.events;
  }

  /** Projecting the request's height again gives the row the request's old address and effective height, and
      changes nothing else of it. */
  lemma HeightRewrites(sources: Sources, st: State, i: nat, r: Rotation, height: int, e: Event, f: Rotation)
    requires WellFormed(sources) && Inv(sources, st.rows) && IsRequest(sources(height), e, f)
    requires RowIs(st.rows, i, r) && AppliedElsewhere(r, f, height, e)
    ensures RowIs(ProjectHeight(st, height, sources(height)).rows, i, Rewritten(r, f))
  {
    var src := sources(height);
    var used, cleared, g := UsedBy(src, |src.messages|), Cleared(st, height), Rewritten(r, f);
    var messages := ProjectMessages(cleared, src, |src.messages|);
    var requests := ProjectEvents(messages, src, used, RequestedEvent, |src.events|);
    var applied := ProjectEvents(requests, src, used, RotatedEvent, |src.events|);
    StoredEitherWay(src, e, f);
    MessagesStep(sources, height, cleared, |src.messages|);
    MessagesRewrite(sources, cleared, i, r, g, height, e, f, |src.messages|);
    EventsStep(sources, height, used, RequestedEvent, messages, |src.events|);
    EventsRewrite(sources, messages, i, r, g, height, e, f, RequestedEvent, |src.events|, e.id in used.requested);
    EventsStep(sources, height, used, RotatedEvent, requests, |src.events|);
    EventsRewrite(sources, requests, i, r, g, height, e, f, RotatedEvent, |src.events|, true);
    EventsRewrite(sources, applied, i, r, g, height, e, f, CancelEvent, |src.events|, true);
  }

  // ---- over every run ----

  /** What the run knows of an applied row: the request `f` of event `e`, and the payload `q` that applied it. */
  lemma AppliedRowsAreTold(sources: Sources, heights: seq<int>, i: nat, e: Event)
    requires WellFormed(sources) && i < |Run(sources, State([], {}, 0, 0), heights).rows|
    requires e in sources(e.height).events && e.kind == RequestedEvent
    requires var r := Run(sources, State([], {}, 0, 0), heights).rows[i];
             r.status == Applied && r.requestEvent == Some(e.id)
    ensures var r := Run(sources, State([], {}, 0, 0), heights).rows[i];
            && ApplicationKnown(sources, r) && RequestOf(sources(e.height), e).Some?
            && var q, f := ApplicationFor(sources, r), RequestOf(sources(e.height), e).value;
            KeepsRequest(r, f) && (q.effectiveHeight.None? || q.effectiveHeight == f.effectiveHeight)
  {
    var before := Run(sources, State([], {}, 0, 0), heights);
    RunStaysSound(sources, State([], {}, 0, 0), heights);
    EventIsItself(sources, e.height, e);
    assert Told(sources, before.rows[i]) && RowOk(sources, before.rows[i]);
  }

  /** The row before and after its request's height is projected again. */
  ghost predicate RewrittenExactly(r: Rotation, r': Rotation, q: Payload, f: Rotation) {
    && r' == r.(oldAddress := f.oldAddress, effectiveHeight := f.effectiveHeight)
    && (r.effectiveHeight == q.effectiveHeight ==>
          (r'.effectiveHeight != r.effectiveHeight <==> q.effectiveHeight.None? && f.effectiveHeight.Some?))
    && (r.oldAddress == q.oldAddress ==> (r'.oldAddress != r.oldAddress <==> q.oldAddress != f.oldAddress))
  }

  /** Over every run: of a row that was applied at another height than it was requested, and stands as its
      application left it, projecting the request's height again changes the effective height exactly when the
      application named none and the request did, and the old address exactly when the two named different ones.
      The rest of the row stays, its status included. */
  lemma ReprojectionRewritesExactly(sources: Sources, heights: seq<int>, i: nat, e: Event)
    requires WellFormed(sources) && i < |Run(sources, State([], {}, 0, 0), heights).rows|
    requires e in sources(e.height).events && e.kind == RequestedEvent
    requires var r := Run(sources, State([], {}, 0, 0), heights).rows[i];
             r.status == Applied && r.requestEvent == Some(e.id) && r.appliedHeight != Some(e.height)
    ensures var r := Run(sources, State([], {}, 0, 0), heights).rows[i];
            var rows' := Run(sources, State([], {}, 0, 0), heights + [e.height]).rows;
            && ApplicationKnown(sources, r) && RequestOf(sources(e.height), e).Some? && i < |rows'|
            && RewrittenExactly(r, rows'[i], ApplicationFor(sources, r), RequestOf(sources(e.height), e).value)
  {
    var start := State([], {}, 0, 0);
    var before := Run(sources, start, heights);
    AppliedRowsAreTold(sources, heights, i, e);
    var r, f := before.rows[i], RequestOf(sources(e.height), e).value;
    RunKeeps(sources, start, heights);
    HeightRewrites(sources, before, i, r, e.height, e, f);
    RunOneMore(sources, start, heights, e.height);
  }

  // ---- a row that is rewritten ----

  /** A request at height 1 that takes effect at 9. */
  const REQUEST := Event(1, 1, RequestedEvent, None, None, None, Some(3),
                         Good(Payload(None, Some("old"), Some("new"), None, Some(9), None)))

  /** Its application at height 2, which names neither the old address nor the effective height. */
  const APPLICATION := Event(2, 2, RotatedEvent, None, None, None, Some(3),
                             Good(Payload(None, None, Some("new"), Some(5), None, None)))

  function TwoEvents(height: int): Source {
    Source([], if height == 1 then [REQUEST] else if height == 2 then [APPLICATION] else [], {})
  }

  function RequestedRow(): Rotation {
    RequestRow(None, REQUEST, REQUEST.extracted.payload, 3, None, None)
  }

  lemma OneEventHeight(st: State, height: int, e: Event)
    requires TwoEvents(height).events == [e]
    ensures ProjectHeight(st, height, TwoEvents(height)) == ProjectEvent(Cleared(st, height), e)
  {
    var src := TwoEvents(height);
    var cleared, used := Cleared(st, height), Used({}, {});
    assert UsedBy(src, 0) == used && ProjectMessages(cleared, src, 0) == cleared;
    OneEventPass(cleared, src, used, RequestedEvent, e);
    var requests := ProjectEvents(cleared, src, used, RequestedEvent, 1);
    OneEventPass(requests, src, used, RotatedEvent, e);
    var applied := ProjectEvents(requests, src, used, RotatedEvent, 1);
    OneEventPass(applied, src, used, CancelEvent, e);
  }

  lemma OneEventPass(st: State, src: Source, used: Used, kind: EventKind, e: Event)
    requires src.events == [e] && e.txHash.None? && used == Used({}, {})
    ensures ProjectEvents(st, src, used, kind, 1) == if e.kind == kind then ProjectEvent(st, e) else st
  {
    assert ProjectEvents(st, src, used, kind, 0) == st;
  }

  lemma RequestIsStored(st: State)
    requires st.rows == []
    ensures ProjectEvent(st, REQUEST).rows == [RequestedRow()]
  {
    assert FindRow([], RequestedEvent, 1).None?;
  }

  lemma ApplicationSettles(st: State)
    requires st.rows == [RequestedRow()]
    ensures ProjectEvent(st, APPLICATION).rows ==
            [MarkApplied(RequestedRow(), APPLICATION, APPLICATION.extracted.payload)]
  {
    var p := APPLICATION.extracted.payload;
    assert st.rows[..0] == [];
    assert OpenRequests(st.rows[..0], 3, p) == [] && FindRow(st.rows[..0], RotatedEvent, 2).None?;
    assert OpenRequests(st.rows, 3, p) == [0] && FindRow(st.rows, RotatedEvent, 2).None?;
  }

  lemma RequestIsStoredAgain(st: State, r: Rotation)
    requires st.rows == [r] && r.requestEvent == Some(1)
    ensures ProjectEvent(st, REQUEST).rows == [RequestRow(Some(r), REQUEST, REQUEST.extracted.payload, 3, None, None)]
  {
    assert FindRow(st.rows, RequestedEvent, 1) == Some(0);
  }

  lemma TwoEventsAreWellFormed()
    ensures WellFormed(TwoEvents)
  {
  }

  lemma RunOneMore(sources: Sources, st: State, heights: seq<int>, h: int)
    ensures Run(sources, st, heights + [h]) == ProjectHeight(Run(sources, st, heights), h, sources(h))
  {
    assert (heights + [h])[..|heights|] == heights;
  }

  lemma AppliedOnce()
    ensures Run(TwoEvents, State([], {}, 0, 0), [1, 2]).rows ==
            [MarkApplied(RequestedRow(), APPLICATION, APPLICATION.extracted.payload)]
  {
    var start := State([], {}, 0, 0);
    RunOneMore(TwoEvents, start, [], 1);
    RunOneMore(TwoEvents, start, [1], 2);
    assert [1] + [2] == [1, 2];
    assert [] + [1] == [1];
    OneEventHeight(start, 1, REQUEST);
    RequestIsStored(Cleared(start, 1));
    var first := Run(TwoEvents, start, [1]);
    OneEventHeight(first, 2, APPLICATION);
    ApplicationSettles(Cleared(first, 2));
  }

  /** The same events, projected as 1, 2 and as 1, 2, 1, leave the applied row with another old address and
      another effective height. */
  lemma AppliedRowIsRewritten()
    ensures var once := Run(TwoEvents, State([], {}, 0, 0), [1, 2]).rows;
            var again := Run(TwoEvents, State([], {}, 0, 0), [1, 2] + [1]).rows;
            && |once| == |again| == 1 && once[0].status == again[0].status == Applied
            && once[0].effectiveHeight == None && again[0].effectiveHeight == Some(9)
            && once[0].oldAddress == None && again[0].oldAddress == Some("old")
  {
    var start := State([], {}, 0, 0);
    var second := Run(TwoEvents, start, [1, 2]);
    AppliedOnce();
    RunOneMore(TwoEvents, start, [1, 2], 1);
    OneEventHeight(second, 1, REQUEST);
    RequestIsStoredAgain(Cleared(second, 1), second.rows[0]);
  }
}
