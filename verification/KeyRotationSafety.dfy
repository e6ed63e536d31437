/** The rotation status machine over every run: heights may be projected in any order and any number of
    times, over fixed source rows. */
module KeyRotationSafety {
  import opened Wrappers
  import opened KeyRotation
  import Sorting

  /** The stored source of every height: an event belongs to one height, and its id names it. */
  type Sources = int -> Source

  ghost predicate WellFormed(sources: Sources) {
    && (forall h, e :: e in sources(h).events ==> e.height == h)
    && (forall h, h', e, e' :: e in sources(h).events && e' in sources(h').events && e.id == e'.id ==> e == e')
  }

  /** The id is that of an event of this kind at this height. */
  ghost predicate IsEvent(sources: Sources, height: int, kind: EventKind, id: nat) {
    exists e :: e in sources(height).events && e.kind == kind && e.id == id
  }

  // ---- the invariant ----

  /** A row carries the events its status says, and an applied row is immediate exactly when its event is. */
  ghost predicate RowOk(sources: Sources, r: Rotation) {
    match r.status
    case Requested => r.requestEvent.Some? && r.appliedEvent.None? && r.cancelledEvent.None?
    case Applied =>
      && r.appliedEvent.Some? && r.cancelledEvent.None? && r.appliedHeight.Some?
      && IsEvent(sources, r.appliedHeight.value, RotatedEvent, r.appliedEvent.value)
      && !IsImmediate(sources(r.appliedHeight.value), r.appliedEvent.value)
    case ImmediateApplied =>
      && r.appliedEvent.Some? && r.cancelledEvent.None? && r.appliedHeight.Some?
      && IsEvent(sources, r.appliedHeight.value, RotatedEvent, r.appliedEvent.value)
      && IsImmediate(sources(r.appliedHeight.value), r.appliedEvent.value)
    case Cancelled => r.cancelledEvent.Some? && r.appliedEvent.None?
  }

  /** An event drives at most one row. */
  ghost predicate Unique(rows: seq<Rotation>, kind: EventKind) {
    forall i, j :: 0 <= i < j < |rows| && EventOf(rows[i], kind).Some? ==>
      EventOf(rows[i], kind) != EventOf(rows[j], kind)
  }

  ghost predicate Inv(sources: Sources, rows: seq<Rotation>) {
    && (forall i :: 0 <= i < |rows| ==> RowOk(sources, rows[i]))
    && (forall kind :: Unique(rows, kind))
  }

  /** What may happen to one row: a requested row may be settled, a settled one keeps its status, and no
      event is ever taken off a row. */
  ghost predicate RowEvolves(r: Rotation, r': Rotation) {
    && (r.status != Requested ==> r'.status == r.status)
    && (forall kind :: EventOf(r, kind).Some? ==> EventOf(r', kind) == EventOf(r, kind))
  }

  ghost predicate Evolves(rows: seq<Rotation>, rows': seq<Rotation>) {
    |rows| <= |rows'| && forall i :: 0 <= i < |rows| ==> RowEvolves(rows[i], rows'[i])
  }

  lemma EvolvesIsTransitive(a: seq<Rotation>, b: seq<Rotation>, c: seq<Rotation>)
    requires Evolves(a, b) && Evolves(b, c)
    ensures Evolves(a, c)
  {
    forall i | 0 <= i < |a|
      ensures RowEvolves(a[i], c[i])
    {
      assert RowEvolves(a[i], b[i]) && RowEvolves(b[i], c[i]);
      RowEvolvesIsTransitive(a[i], b[i], c[i]);
    }
  }

  lemma RowEvolvesIsTransitive(a: Rotation, b: Rotation, c: Rotation)
    requires RowEvolves(a, b) && RowEvolves(b, c)
    ensures RowEvolves(a, c)
  {
  }

  // ---- replacing and adding a row ----

  /** A row may be replaced by one that evolves from it and takes on no event that another row has. */
  lemma ReplaceKeeps(sources: Sources, rows: seq<Rotation>, at: nat, r: Rotation)
    requires Inv(sources, rows) && at < |rows| && RowOk(sources, r) && RowEvolves(rows[at], r)
    requires forall kind, i :: 0 <= i < |rows| && EventOf(rows[at], kind).None? && EventOf(r, kind).Some? ==>
               EventOf(rows[i], kind) != EventOf(r, kind)
    ensures Inv(sources, rows[at := r]) && Evolves(rows, rows[at := r])
  {
    var rows' := rows[at := r];
    forall kind
      ensures Unique(rows', kind)
    {
      assert Unique(rows, kind);
    }
  }

  lemma AppendKeeps(sources: Sources, rows: seq<Rotation>, r: Rotation)
    requires Inv(sources, rows) && RowOk(sources, r)
    requires forall kind, i :: 0 <= i < |rows| && EventOf(r, kind).Some? ==> EventOf(rows[i], kind) != EventOf(r, kind)
    ensures Inv(sources, rows + [r]) && Evolves(rows, rows + [r])
  {
    var rows' := rows + [r];
    forall kind
      ensures Unique(rows', kind)
    {
      assert Unique(rows, kind);
    }
  }

  ghost predicate Carries(rows: seq<Rotation>, kind: EventKind, id: nat) {
    exists i :: 0 <= i < |rows| && EventOf(rows[i], kind) == Some(id)
  }

  lemma CarriedStays(rows: seq<Rotation>, rows': seq<Rotation>, kind: EventKind, id: nat)
    requires Evolves(rows, rows') && Carries(rows, kind, id)
    ensures Carries(rows', kind, id)
  {
    var i :| 0 <= i < |rows| && EventOf(rows[i], kind) == Some(id);
    assert RowEvolves(rows[i], rows'[i]);
  }

  // ---- each writer keeps the invariant ----

  lemma RequestedKeeps(sources: Sources, rows: seq<Rotation>, e: Event, p: Payload, slotId: int, m: Option<Message>,
                       operator: Option<string>)
    requires Inv(sources, rows)
    ensures var rows' := UpsertRequested(rows, e, p, slotId, m, operator);
            Inv(sources, rows') && Evolves(rows, rows') && Carries(rows', RequestedEvent, e.id)
  {
    var at := FindRow(rows, RequestedEvent, e.id);
    var r := RequestRow(RowAt(rows, at), e, p, slotId, m, operator);
    var rows' := UpsertRequested(rows, e, p, slotId, m, operator);
    if at.Some? {
      assert RowOk(sources, rows[at.value]);
      ReplaceKeeps(sources, rows, at.value, r);
      assert rows'[at.value] == r;
    } else {
      AppendKeeps(sources, rows, r);
      assert rows'[|rows|] == r;
    }
  }

  /** A row that carries a rotated event of this height was applied at this height. */
  lemma AppliedHere(sources: Sources, rows: seq<Rotation>, at: nat, height: int, e: Event)
    requires WellFormed(sources) && Inv(sources, rows) && at < |rows|
    requires e in sources(height).events && e.kind == RotatedEvent && rows[at].appliedEvent == Some(e.id)
    ensures rows[at].appliedHeight == Some(height)
    ensures rows[at].status == if IsImmediate(sources(height), e.id) then ImmediateApplied else Applied
  {
    var r := rows[at];
    assert RowOk(sources, r);
    var e' :| e' in sources(r.appliedHeight.value).events && e'.kind == RotatedEvent && e'.id == e.id;
    assert e' == e;
  }

  lemma ImmediateKeeps(sources: Sources, rows: seq<Rotation>, height: int, e: Event, p: Payload, slotId: int,
                       m: Message)
    requires WellFormed(sources) && Inv(sources, rows)
    requires e in sources(height).events && e.kind == RotatedEvent && IsImmediate(sources(height), e.id)
    ensures var rows' := UpsertImmediate(rows, e, p, slotId, m);
            Inv(sources, rows') && Evolves(rows, rows') && Carries(rows', RotatedEvent, e.id)
  {
    var at := FindRow(rows, RotatedEvent, e.id);
    var r := ImmediateRow(RowAt(rows, at), e, p, slotId, m);
    var rows' := UpsertImmediate(rows, e, p, slotId, m);
    assert IsEvent(sources, e.height, RotatedEvent, e.id);
    if at.Some? {
      AppliedHere(sources, rows, at.value, height, e);
      assert RowOk(sources, rows[at.value]);
      ReplaceKeeps(sources, rows, at.value, r);
      assert rows'[at.value] == r;
    } else {
      AppendKeeps(sources, rows, r);
      assert rows'[|rows|] == r;
    }
  }

  /** Marking the row an effect already drives changes no status. */
  lemma MarkAgainKeeps(sources: Sources, rows: seq<Rotation>, height: int, e: Event, p: Payload, at: nat)
    requires WellFormed(sources) && Inv(sources, rows) && at < |rows|
    requires e in sources(height).events && e.kind != RequestedEvent && EventOf(rows[at], e.kind) == Some(e.id)
    requires e.kind == RotatedEvent ==> !IsImmediate(sources(height), e.id)
    ensures var rows' := rows[at := Mark(rows[at], e, p)];
            Inv(sources, rows') && Evolves(rows, rows') && Carries(rows', e.kind, e.id)
  {
    var r := Mark(rows[at], e, p);
    assert RowOk(sources, rows[at]);
    if e.kind == RotatedEvent {
      AppliedHere(sources, rows, at, height, e);
    }
    ReplaceKeeps(sources, rows, at, r);
    assert rows[at := r][at] == r;
  }

  /** An effect that drives no row yet settles an open request. */
  lemma SettleKeeps(sources: Sources, rows: seq<Rotation>, height: int, e: Event, p: Payload, at: nat)
    requires WellFormed(sources) && Inv(sources, rows) && at < |rows| && rows[at].status == Requested
    requires e in sources(height).events && e.kind != RequestedEvent
    requires e.kind == RotatedEvent ==> !IsImmediate(sources(height), e.id)
    requires forall i :: 0 <= i < |rows| ==> EventOf(rows[i], e.kind) != Some(e.id)
    ensures var rows' := rows[at := Mark(rows[at], e, p)];
            Inv(sources, rows') && Evolves(rows, rows') && Carries(rows', e.kind, e.id)
  {
    var r := Mark(rows[at], e, p);
    assert RowOk(sources, rows[at]);
    assert IsEvent(sources, e.height, e.kind, e.id);
    ReplaceKeeps(sources, rows, at, r);
    assert rows[at := r][at] == r;
  }

  lemma OwnRowKeeps(sources: Sources, rows: seq<Rotation>, height: int, e: Event, p: Payload, slotId: int)
    requires WellFormed(sources) && Inv(sources, rows)
    requires e in sources(height).events && e.kind != RequestedEvent
    requires e.kind == RotatedEvent ==> !IsImmediate(sources(height), e.id)
    requires forall i :: 0 <= i < |rows| ==> EventOf(rows[i], e.kind) != Some(e.id)
    ensures var rows' := rows + [OwnRow(e, p, slotId)];
            Inv(sources, rows') && Evolves(rows, rows') && Carries(rows', e.kind, e.id)
  {
    var r := OwnRow(e, p, slotId);
    assert IsEvent(sources, e.height, e.kind, e.id);
    AppendKeeps(sources, rows, r);
    assert (rows + [r])[|rows|] == r;
  }

  // ---- each step ----

  ghost predicate FailureOn(failures: set<Failure>, id: nat) {
    exists f :: f in failures && f.eventId == Some(id)
  }

  /** The event is on a row, or a failure is recorded on it. */
  ghost predicate Accounted(st: State, e: Event) {
    Carries(st.rows, e.kind, e.id) || FailureOn(st.failures, e.id)
  }

  /** A step keeps the invariant, lets rows evolve, and forgets no failure. */
  ghost predicate Steps(sources: Sources, st: State, st': State) {
    Inv(sources, st'.rows) && Evolves(st.rows, st'.rows) && st.failures <= st'.failures
  }

  lemma AccountedStays(sources: Sources, st: State, st': State, e: Event)
    requires Steps(sources, st, st') && Accounted(st, e)
    ensures Accounted(st', e)
  {
    if Carries(st.rows, e.kind, e.id) {
      CarriedStays(st.rows, st'.rows, e.kind, e.id);
    }
  }

  lemma {:induction false} MatchesAreEvents(events: seq<Event>, kind: EventKind, m: Message, slotId: int,
                                            used: set<nat>)
    ensures forall e :: e in Matches(events, kind, m, slotId, used) ==> e in events && e.kind == kind
  {
    if events != [] {
      MatchesAreEvents(events[..|events| - 1], kind, m, slotId, used);
    }
  }

  /** A decision takes only events of the height and of the right kind. */
  lemma DecisionTakes(src: Source, m: Message, used: Used)
    ensures var d := Decide(src, m, used);
            && (d.TakeRequest? ==> d.e in src.events && d.e.kind == RequestedEvent)
            && (d.TakeRotated? ==> d.e in src.events && d.e.kind == RotatedEvent)
  {
    if m.slot.Some? {
      var requested := Matches(src.events, RequestedEvent, m, m.slot.value, used.requested);
      var rotated := Matches(src.events, RotatedEvent, m, m.slot.value, used.rotated);
      MatchesAreEvents(src.events, RequestedEvent, m, m.slot.value, used.requested);
      MatchesAreEvents(src.events, RotatedEvent, m, m.slot.value, used.rotated);
      if |requested| == 1 {
        assert requested[0] in requested;
      }
      if |rotated| == 1 {
        assert rotated[0] in rotated;
      }
    }
  }

  lemma {:induction false} UsedOnlyGrows(src: Source, n: nat, k: nat)
    requires n <= k <= |src.messages|
    ensures UsedBy(src, n).requested <= UsedBy(src, k).requested
    ensures UsedBy(src, n).rotated <= UsedBy(src, k).rotated
  {
    if n < k {
      UsedOnlyGrows(src, n, k - 1);
    }
  }

  lemma EvolvesIsReflexive(rows: seq<Rotation>)
    ensures Evolves(rows, rows)
  {
  }

  /** A decision takes an event of the height and of its kind; a rotated one is then immediate. */
  ghost predicate SoundDecision(src: Source, d: Decision) {
    && (d.TakeRequest? ==> d.e in src.events && d.e.kind == RequestedEvent)
    && (d.TakeRotated? ==> d.e in src.events && d.e.kind == RotatedEvent && IsImmediate(src, d.e.id))
  }

  lemma DecisionsAreSound(src: Source, n: nat)
    requires n < |src.messages|
    ensures SoundDecision(src, Decide(src, src.messages[n], UsedBy(src, n)))
  {
    DecisionTakes(src, src.messages[n], UsedBy(src, n));
    UsedOnlyGrows(src, n + 1, |src.messages|);
  }

  lemma MessageSteps(sources: Sources, height: int, st: State, m: Message, d: Decision)
    requires WellFormed(sources) && Inv(sources, st.rows) && SoundDecision(sources(height), d)
    ensures var st' := ProjectMessage(st, m, d);
            && Steps(sources, st, st')
            && (d.TakeRequest? ==> Carries(st'.rows, RequestedEvent, d.e.id))
            && (d.TakeRotated? ==> Carries(st'.rows, RotatedEvent, d.e.id))
  {
    match d {
      case Reject(_, _) => EvolvesIsReflexive(st.rows);
      case TakeRequest(e, p, slotId) => RequestedKeeps(sources, st.rows, e, p, slotId, Some(m), m.operator);
      case TakeRotated(e, p, slotId) => ImmediateKeeps(sources, st.rows, height, e, p, slotId, m);
    }
  }

  lemma EffectSteps(sources: Sources, height: int, st: State, e: Event)
    requires WellFormed(sources) && Inv(sources, st.rows)
    requires e in sources(height).events && e.kind != RequestedEvent
    requires e.kind == RotatedEvent ==> !IsImmediate(sources(height), e.id)
    ensures Steps(sources, st, ProjectEffect(st, e)) && Accounted(ProjectEffect(st, e), e)
  {
    var st' := ProjectEffect(st, e);
    if Defect(e).Some? {
      EvolvesIsReflexive(st.rows);
      assert OfEvent(Defect(e).value, e) in st'.failures;
    } else {
      var p, slotId := e.extracted.payload, e.slot.value;
      var at, open := FindRow(st.rows, e.kind, e.id), OpenRequests(st.rows, slotId, p);
      if at.Some? {
        MarkAgainKeeps(sources, st.rows, height, e, p, at.value);
      } else if |open| > 1 {
        EvolvesIsReflexive(st.rows);
        assert OfEvent(CorrelationFailed, e) in st'.failures;
      } else if |open| == 1 {
        assert open[0] in open;
        SettleKeeps(sources, st.rows, height, e, p, open[0]);
      } else {
        OwnRowKeeps(sources, st.rows, height, e, p, slotId);
      }
    }
  }

  lemma EventSteps(sources: Sources, height: int, st: State, e: Event)
    requires WellFormed(sources) && Inv(sources, st.rows) && e in sources(height).events
    requires e.kind == RotatedEvent ==> !IsImmediate(sources(height), e.id)
    ensures Steps(sources, st, ProjectEvent(st, e)) && Accounted(ProjectEvent(st, e), e)
  {
    if e.kind != RequestedEvent {
      EffectSteps(sources, height, st, e);
    } else if Defect(e).Some? {
      EvolvesIsReflexive(st.rows);
      assert OfEvent(Defect(e).value, e) in ProjectEvent(st, e).failures;
    } else {
      RequestedKeeps(sources, st.rows, e, e.extracted.payload, e.slot.value, None, e.extracted.payload.operator);
    }
  }

  lemma StepsCompose(sources: Sources, a: State, b: State, c: State)
    requires Steps(sources, a, b) && Steps(sources, b, c)
    ensures Steps(sources, a, c)
  {
    EvolvesIsTransitive(a.rows, b.rows, c.rows);
  }

  /** The events that messages have taken are on rows. */
  ghost predicate TakenAreCarried(used: Used, rows: seq<Rotation>) {
    && (forall id :: id in used.requested ==> Carries(rows, RequestedEvent, id))
    && (forall id :: id in used.rotated ==> Carries(rows, RotatedEvent, id))
  }

  lemma TakenStayCarried(used: Used, d: Decision, rows: seq<Rotation>, rows': seq<Rotation>)
    requires TakenAreCarried(used, rows) && Evolves(rows, rows')
    requires d.TakeRequest? ==> Carries(rows', RequestedEvent, d.e.id)
    requires d.TakeRotated? ==> Carries(rows', RotatedEvent, d.e.id)
    ensures TakenAreCarried(Uses(used, d), rows')
  {
    forall id | id in used.requested
      ensures Carries(rows', RequestedEvent, id)
    {
      CarriedStays(rows, rows', RequestedEvent, id);
    }
    forall id | id in used.rotated
      ensures Carries(rows', RotatedEvent, id)
    {
      CarriedStays(rows, rows', RotatedEvent, id);
    }
  }

  lemma {:induction false} MessagesStep(sources: Sources, height: int, st: State, n: nat)
    requires WellFormed(sources) && Inv(sources, st.rows) && n <= |sources(height).messages|
    ensures Steps(sources, st, ProjectMessages(st, sources(height), n))
    ensures TakenAreCarried(UsedBy(sources(height), n), ProjectMessages(st, sources(height), n).rows)
  {
    var src := sources(height);
    if n == 0 {
      EvolvesIsReflexive(st.rows);
    } else {
      MessagesStep(sources, height, st, n - 1);
      DecisionsAreSound(src, n - 1);
      var before, m := ProjectMessages(st, src, n - 1), src.messages[n - 1];
      var used := UsedBy(src, n - 1);
      var d := Decide(src, m, used);
      MessageSteps(sources, height, before, m, d);
      StepsCompose(sources, st, before, ProjectMessage(before, m, d));
      TakenStayCarried(used, d, before.rows, ProjectMessage(before, m, d).rows);
    }
  }

  /** The first `n` events that the pass does not leave alone are accounted for. */
  ghost predicate PassAccounts(st: State, src: Source, used: Used, kind: EventKind, n: nat)
    requires n <= |src.events|
  {
    forall i :: 0 <= i < n && !Skipped(src, used, kind, src.events[i]) ==> Accounted(st, src.events[i])
  }

  lemma PassStaysAccounted(sources: Sources, st: State, st': State, src: Source, used: Used, kind: EventKind, n: nat)
    requires n < |src.events| && PassAccounts(st, src, used, kind, n) && Steps(sources, st, st')
    requires Skipped(src, used, kind, src.events[n]) || Accounted(st', src.events[n])
    ensures PassAccounts(st', src, used, kind, n + 1)
  {
    forall i | 0 <= i < n && !Skipped(src, used, kind, src.events[i])
      ensures Accounted(st', src.events[i])
    {
      AccountedStays(sources, st, st', src.events[i]);
    }
  }

  lemma StepsStill(sources: Sources, st: State)
    requires Inv(sources, st.rows)
    ensures Steps(sources, st, st)
  {
    EvolvesIsReflexive(st.rows);
  }

  lemma {:induction false} EventsStep(sources: Sources, height: int, used: Used, kind: EventKind, st: State, n: nat)
    requires WellFormed(sources) && Inv(sources, st.rows) && n <= |sources(height).events|
    requires forall e :: e in sources(height).events && IsImmediate(sources(height), e.id) ==> e.id in used.rotated
    ensures Steps(sources, st, ProjectEvents(st, sources(height), used, kind, n))
    ensures PassAccounts(ProjectEvents(st, sources(height), used, kind, n), sources(height), used, kind, n)
  {
    var src := sources(height);
    if n == 0 {
      StepsStill(sources, st);
    } else {
      EventsStep(sources, height, used, kind, st, n - 1);
      var before, after := ProjectEvents(st, src, used, kind, n - 1), ProjectEvents(st, src, used, kind, n);
      var e := src.events[n - 1];
      if Skipped(src, used, kind, e) {
        StepsStill(sources, before);
      } else {
        assert e in src.events;
        EventSteps(sources, height, before, e);
      }
      StepsCompose(sources, st, before, after);
      PassStaysAccounted(sources, before, after, src, used, kind, n - 1);
    }
  }

  // ---- a height, and runs of heights ----

  /** Projecting a height, for the first time or again, keeps the invariant and every settled status. */
  lemma HeightKeeps(sources: Sources, height: int, st: State)
    requires WellFormed(sources) && Inv(sources, st.rows)
    ensures var st' := ProjectHeight(st, height, sources(height));
            Inv(sources, st'.rows) && Evolves(st.rows, st'.rows)
  {
    var src := sources(height);
    var used := UsedBy(src, |src.messages|);
    var cleared := Cleared(st, height);
    var messages := ProjectMessages(cleared, src, |src.messages|);
    var requests := ProjectEvents(messages, src, used, RequestedEvent, |src.events|);
    var applied := ProjectEvents(requests, src, used, RotatedEvent, |src.events|);
    MessagesStep(sources, height, cleared, |src.messages|);
    EventsStep(sources, height, used, RequestedEvent, messages, |src.events|);
    EventsStep(sources, height, used, RotatedEvent, requests, |src.events|);
    EventsStep(sources, height, used, CancelEvent, applied, |src.events|);
    StepsCompose(sources, cleared, messages, requests);
    StepsCompose(sources, cleared, requests, applied);
    StepsCompose(sources, cleared, applied, ProjectHeight(st, height, src));
  }

  /** After a height is projected, each of its events that is not bound to a failed transaction is on a row
      or has a recorded failure. */
  lemma HeightAccountsForEvents(sources: Sources, height: int, st: State, e: Event)
    requires WellFormed(sources) && Inv(sources, st.rows)
    requires e in sources(height).events && !IsFailedTxBound(e, sources(height))
    ensures Accounted(ProjectHeight(st, height, sources(height)), e)
  {
    var src := sources(height);
    var used := UsedBy(src, |src.messages|);
    var messages := ProjectMessages(Cleared(st, height), src, |src.messages|);
    var requests := ProjectEvents(messages, src, used, RequestedEvent, |src.events|);
    var applied := ProjectEvents(requests, src, used, RotatedEvent, |src.events|);
    MessagesStep(sources, height, Cleared(st, height), |src.messages|);
    EventsStep(sources, height, used, RequestedEvent, messages, |src.events|);
    EventsStep(sources, height, used, RotatedEvent, requests, |src.events|);
    EventsStep(sources, height, used, CancelEvent, applied, |src.events|);
    var st' := ProjectHeight(st, height, src);
    StepsCompose(sources, requests, applied, st');
    StepsCompose(sources, messages, requests, st');
    var i :| 0 <= i < |src.events| && src.events[i] == e;
    match e.kind {
      case RequestedEvent =>
        assert e.id in used.requested ==> Accounted(messages, e);
        if e.id in used.requested {
          AccountedStays(sources, messages, st', e);
        } else {
          assert !Skipped(src, used, RequestedEvent, src.events[i]);
          AccountedStays(sources, requests, st', e);
        }
      case RotatedEvent =>
        if e.id in used.rotated {
          AccountedStays(sources, messages, st', e);
        } else {
          assert !Skipped(src, used, RotatedEvent, src.events[i]);
          AccountedStays(sources, applied, st', e);
        }
      case CancelEvent =>
        assert !Skipped(src, used, CancelEvent, src.events[i]);
    }
  }

  /** The state after projecting these heights, in this order. */
  function Run(sources: Sources, st: State, heights: seq<int>): State {
    if heights == [] then st
    else
      var n := |heights| - 1;
      ProjectHeight(Run(sources, st, heights[..n]), heights[n], sources(heights[n]))
  }

  lemma {:induction false} RunKeeps(sources: Sources, st: State, heights: seq<int>)
    requires WellFormed(sources) && Inv(sources, st.rows)
    ensures Inv(sources, Run(sources, st, heights).rows)
    ensures Evolves(st.rows, Run(sources, st, heights).rows)
  {
    if heights == [] {
      EvolvesIsReflexive(st.rows);
    } else {
      var n := |heights| - 1;
      RunKeeps(sources, st, heights[..n]);
      HeightKeeps(sources, heights[n], Run(sources, st, heights[..n]));
      EvolvesIsTransitive(st.rows, Run(sources, st, heights[..n]).rows, Run(sources, st, heights).rows);
    }
  }

  /** From an empty table, whatever heights are projected and projected again: a settled row never changes
      its status, an applied or cancelled event drives at most one row, and no row carries both kinds. */
  lemma SettledStaysSettled(sources: Sources, heights: seq<int>, more: seq<int>)
    requires WellFormed(sources)
    ensures var before := Run(sources, State([], {}, 0, 0), heights).rows;
            var after := Run(sources, Run(sources, State([], {}, 0, 0), heights), more).rows;
            && |before| <= |after|
            && (forall i :: 0 <= i < |before| && before[i].status != Requested ==> after[i].status == before[i].status)
            && (forall i, j :: 0 <= i < j < |after| && after[i].appliedEvent.Some? ==>
                  after[i].appliedEvent != after[j].appliedEvent)
            && (forall i, j :: 0 <= i < j < |after| && after[i].cancelledEvent.Some? ==>
                  after[i].cancelledEvent != after[j].cancelledEvent)
            && (forall i :: 0 <= i < |after| ==> after[i].appliedEvent.None? || after[i].cancelledEvent.None?)
  {
    var middle := Run(sources, State([], {}, 0, 0), heights);
    RunKeeps(sources, State([], {}, 0, 0), heights);
    RunKeeps(sources, middle, more);
    var after := Run(sources, middle, more).rows;
    assert Unique(after, RotatedEvent) && Unique(after, CancelEvent);
    forall i | 0 <= i < |after|
      ensures after[i].appliedEvent.None? || after[i].cancelledEvent.None?
    {
      assert RowOk(sources, after[i]);
    }
    forall i | 0 <= i < |middle.rows| && middle.rows[i].status != Requested
      ensures after[i].status == middle.rows[i].status
    {
      assert RowEvolves(middle.rows[i], after[i]);
    }
  }

  // ---- what an effect does ----

  /** The open requests are listed completely, each once. */
  lemma {:induction false} OpenRequestsExactly(rows: seq<Rotation>, slotId: int, p: Payload)
    ensures forall i: nat :: i in OpenRequests(rows, slotId, p) <==> i < |rows| && IsOpenRequest(rows[i], slotId, p)
    ensures forall i, j :: 0 <= i < j < |OpenRequests(rows, slotId, p)| ==>
              OpenRequests(rows, slotId, p)[i] < OpenRequests(rows, slotId, p)[j]
  {
    if rows != [] {
      var n := |rows| - 1;
      OpenRequestsExactly(rows[..n], slotId, p);
      assert forall i :: 0 <= i < n ==> rows[..n][i] == rows[i];
      var earlier := OpenRequests(rows[..n], slotId, p);
      assert forall k :: 0 <= k < |earlier| ==> earlier[k] in earlier;
      forall i: nat
        ensures i in OpenRequests(rows, slotId, p) <==> i < |rows| && IsOpenRequest(rows[i], slotId, p)
      {
        assert i in OpenRequests(rows[..n], slotId, p) <==> i < n && IsOpenRequest(rows[i], slotId, p);
      }
    }
  }

  /** The row says what the application or cancellation said. */
  ghost predicate TellsEffect(r: Rotation, e: Event, p: Payload) {
    if e.kind == CancelEvent then
      && r.status == Cancelled && r.cancelledEvent == Some(e.id) && r.cancelledHeight == Some(e.height)
      && r.reason == p.reason
    else
      && r.status == Applied && r.appliedEvent == Some(e.id) && r.appliedHeight == Some(e.height)
      && r.newAddress == p.newAddress && r.oldAddress == p.oldAddress
      && r.power == p.power && r.effectiveHeight == p.effectiveHeight
  }

  ghost predicate IsOnlyOpenRequest(rows: seq<Rotation>, i: nat, slotId: int, p: Payload) {
    && i < |rows| && IsOpenRequest(rows[i], slotId, p)
    && forall j :: 0 <= j < |rows| && IsOpenRequest(rows[j], slotId, p) ==> j == i
  }

  /** A first-seen effect settles the only open request of its slot and new address, and no other row. */
  lemma EffectSettlesTheOnlyRequest(st: State, e: Event, i: nat)
    requires e.kind != RequestedEvent && Defect(e).None? && !Carries(st.rows, e.kind, e.id)
    requires IsOnlyOpenRequest(st.rows, i, e.slot.value, e.extracted.payload)
    ensures var st' := ProjectEffect(st, e);
            && |st'.rows| == |st.rows| && st'.rows == st.rows[i := st'.rows[i]] && st'.failures == st.failures
            && TellsEffect(st'.rows[i], e, e.extracted.payload) && st'.rows[i].requestEvent == st.rows[i].requestEvent
  {
    var open := OpenRequests(st.rows, e.slot.value, e.extracted.payload);
    OpenRequestsExactly(st.rows, e.slot.value, e.extracted.payload);
    assert FindRow(st.rows, e.kind, e.id).None?;
    assert i in open;
    Sorting.SizeOneExactly(open, i);
  }

  /** Without an open request it stands alone on a new row, reported as having none. */
  lemma EffectStandsAlone(st: State, e: Event)
    requires e.kind != RequestedEvent && Defect(e).None? && !Carries(st.rows, e.kind, e.id)
    requires forall i :: 0 <= i < |st.rows| ==> !IsOpenRequest(st.rows[i], e.slot.value, e.extracted.payload)
    ensures var st' := ProjectEffect(st, e);
            && |st'.rows| == |st.rows| + 1 && st'.rows[..|st.rows|] == st.rows
            && TellsEffect(st'.rows[|st.rows|], e, e.extracted.payload) && st'.rows[|st.rows|].slotId == e.slot.value
            && st'.failures == st.failures + {OfEvent(MissingRequest, e)}
  {
    var open := OpenRequests(st.rows, e.slot.value, e.extracted.payload);
    OpenRequestsExactly(st.rows, e.slot.value, e.extracted.payload);
    assert FindRow(st.rows, e.kind, e.id).None?;
    assert forall k :: 0 <= k < |open| ==> open[k] in open;
  }

  /** With several it touches no row and is reported. */
  lemma AmbiguousEffectTouchesNothing(st: State, e: Event, i: nat, j: nat)
    requires e.kind != RequestedEvent && Defect(e).None? && !Carries(st.rows, e.kind, e.id)
    requires i < j < |st.rows| && IsOpenRequest(st.rows[i], e.slot.value, e.extracted.payload)
    requires IsOpenRequest(st.rows[j], e.slot.value, e.extracted.payload)
    ensures var st' := ProjectEffect(st, e);
            st'.rows == st.rows && st'.failures == st.failures + {OfEvent(CorrelationFailed, e)}
  {
    var open := OpenRequests(st.rows, e.slot.value, e.extracted.payload);
    OpenRequestsExactly(st.rows, e.slot.value, e.extracted.payload);
    assert FindRow(st.rows, e.kind, e.id).None?;
    assert i in open && j in open;
  }

  /** Storing a request gives its row all of the request's fields; only a new row gets a status. */
  lemma RequestIsRecorded(rows: seq<Rotation>, e: Event, p: Payload, slotId: int, m: Option<Message>,
                          operator: Option<string>)
    ensures var rows' := UpsertRequested(rows, e, p, slotId, m, operator);
            exists i: nat :: i < |rows'| && RecordsRequest(rows, rows', i, e, p, slotId, m, operator)
  {
    var at := FindRow(rows, RequestedEvent, e.id);
    var rows' := UpsertRequested(rows, e, p, slotId, m, operator);
    assert RecordsRequest(rows, rows', at.GetOr(|rows|), e, p, slotId, m, operator);
  }

  ghost predicate RecordsRequest(rows: seq<Rotation>, rows': seq<Rotation>, i: nat, e: Event, p: Payload, slotId: int,
                                 m: Option<Message>, operator: Option<string>)
    requires i < |rows'|
  {
    var r := rows'[i];
    && r.requestEvent == Some(e.id) && r.slotId == slotId
    && r.newAddress == p.newAddress && r.oldAddress == p.oldAddress && r.effectiveHeight == p.effectiveHeight
    && r.operator == (if operator.Some? then operator else p.operator)
    && r.requestedHeight == Some(if m.Some? then m.value.height else e.height)
    && r.messageId == (if m.Some? then Some(m.value.id) else None)
    && if i < |rows|
       then rows' == rows[i := r] && r.status == rows[i].status
            && r.appliedEvent == rows[i].appliedEvent && r.cancelledEvent == rows[i].cancelledEvent
       else rows' == rows + [r] && r.status == Requested && r.appliedEvent.None? && r.cancelledEvent.None?
  }
}
