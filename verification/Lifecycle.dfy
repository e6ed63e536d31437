/** Lifecycle history of a height: messages and events of successful transactions matched both ways. */
module Lifecycle {
  import opened Wrappers
  import opened Decimal

  datatype FailureKind =
    | InvalidSlotId | InvalidConsensusAddress | MissingRequiredPayload | MissingEvent | AmbiguousEvent
    | AmbiguousMessage | MissingMessage

  datatype MessagePayload = MessagePayload(slotId: Option<int>, operator: Option<string>, authority: Option<string>,
                                           reason: Option<string>, evidence: Option<string>)

  datatype EventPayload = EventPayload(slotId: int, operator: Option<string>, consensusAddress: Option<string>,
                                       oldStatus: Option<string>, newStatus: Option<string>, power: Option<int>,
                                       reason: Option<string>)

  datatype Extracted<T> = Good(payload: T) | Bad(kind: FailureKind)

  /** `expected` is the event type that the message's type announces. */
  datatype Message = Message(id: nat, txHash: string, msgIndex: nat, expected: string,
                             extracted: Extracted<MessagePayload>)

  datatype Event = Event(id: nat, txHash: string, eventType: string, msgIndexAttr: Option<string>,
                         slotAttr: Option<string>, operatorAttr: Option<string>, extracted: Extracted<EventPayload>)

  /** The lifecycle messages and events of one height's successful transactions. */
  datatype Source = Source(height: int, messages: seq<Message>, events: seq<Event>)

  datatype Row = Row(messageId: Option<nat>, slotId: int, eventType: string, oldStatus: Option<string>,
                     newStatus: Option<string>, operator: Option<string>, consensusAddress: Option<string>,
                     power: Option<int>, reason: Option<string>, evidence: Option<string>, authority: Option<string>)

  datatype Failure = Failure(kind: FailureKind, height: int, messageId: Option<nat>, eventId: Option<nat>)

  // ---- matching ----

  predicate IsText(s: Option<string>) {
    s.Some? && s.value != ""
  }

  predicate EventMatches(e: Event, m: Message, p: MessagePayload) {
    && e.eventType == m.expected
    && e.txHash == m.txHash
    && (e.msgIndexAttr.None? || e.msgIndexAttr.value == ToDecimal(m.msgIndex))
    && (p.slotId.Some? ==> e.slotAttr == Some(IntText(p.slotId.value)))
    && (IsText(p.operator) && IsText(e.operatorAttr) ==> e.operatorAttr == p.operator)
  }

  predicate Matches(e: Event, m: Message) {
    m.extracted.Good? && EventMatches(e, m, m.extracted.payload)
  }

  function MatchingEvents(events: seq<Event>, m: Message): seq<Event> {
    if events == [] then []
    else
      var n := |events| - 1;
      var earlier := MatchingEvents(events[..n], m);
      if Matches(events[n], m) then earlier + [events[n]] else earlier
  }

  function MatchingMessages(messages: seq<Message>, e: Event): seq<Message> {
    if messages == [] then []
    else
      var n := |messages| - 1;
      var earlier := MatchingMessages(messages[..n], e);
      if Matches(e, messages[n]) then earlier + [messages[n]] else earlier
  }

  // ---- the two passes ----

  function RowOf(e: Event, p: EventPayload, m: Option<MessagePayload>, messageId: Option<nat>): Row {
    var operator := if m.Some? then m.value.operator else None;
    var reason := if m.Some? then m.value.reason else None;
    Row(messageId, p.slotId, e.eventType, p.oldStatus, p.newStatus, p.operator.Or(operator), p.consensusAddress,
        p.power,
        p.reason.Or(reason), if m.Some? then m.value.evidence else None, if m.Some? then m.value.authority else None)
  }

  /** What becomes of a message. */
  datatype Fate =
    | Rejected(kind: FailureKind)
    | NoEvent
    | ManyEvents(first: Event)
    | Shared(e: Event)
    | BadEvent(e: Event, kind: FailureKind)
    | Paired(e: Event, p: EventPayload, mp: MessagePayload)

  function FateOf(src: Source, m: Message): Fate {
    match m.extracted
    case Bad(kind) => Rejected(kind)
    case Good(mp) =>
      var events := MatchingEvents(src.events, m);
      if |events| == 0 then NoEvent
      else if |events| > 1 then ManyEvents(events[0])
      else if |MatchingMessages(src.messages, events[0])| > 1 then Shared(events[0])
      else
        match events[0].extracted
        case Bad(kind) => BadEvent(events[0], kind)
        case Good(p) => Paired(events[0], p, mp)
  }

  /** Rows by event id, this height's failures, and the events that messages have used or shared. */
  datatype State = State(rows: map<nat, Row>, failures: set<Failure>, used: set<nat>, ambiguous: set<nat>)

  function On(src: Source, kind: FailureKind, m: Option<Message>, e: Option<Event>): Failure {
    Failure(kind, src.height, if m.Some? then Some(m.value.id) else None, if e.Some? then Some(e.value.id) else None)
  }

  function ProjectMessage(st: State, src: Source, m: Message, fate: Fate): State {
    match fate
    case Rejected(kind) => st.(failures := st.failures + {On(src, kind, Some(m), None)})
    case NoEvent => st.(failures := st.failures + {On(src, MissingEvent, Some(m), None)})
    case ManyEvents(first) => st.(failures := st.failures + {On(src, AmbiguousEvent, Some(m), Some(first))})
    case Shared(e) =>
      if e.id in st.ambiguous then st
      else st.(ambiguous := st.ambiguous + {e.id},
               failures := st.failures + {On(src, AmbiguousMessage, Some(m), Some(e))})
    case BadEvent(e, kind) => st.(failures := st.failures + {On(src, kind, Some(m), Some(e))})
    case Paired(e, p, mp) => st.(rows := st.rows[e.id := RowOf(e, p, Some(mp), Some(m.id))], used := st.used + {e.id})
  }

  function ProjectMessages(rows: map<nat, Row>, src: Source, n: nat): State
    requires n <= |src.messages|
  {
    if n == 0 then State(rows, {}, {}, {})
    else
      ProjectMessage(ProjectMessages(rows, src, n - 1), src, src.messages[n - 1], FateOf(src, src.messages[n - 1]))
  }

  function ProjectEvent(st: State, src: Source, e: Event): State {
    if e.id in st.used || e.id in st.ambiguous then st
    else
      var messages := MatchingMessages(src.messages, e);
      if |messages| > 1 then
        st.(failures := st.failures + {On(src, AmbiguousMessage, Some(messages[0]), Some(e))})
      else if |messages| == 1 then st
      else
        match e.extracted
        case Bad(kind) => st.(failures := st.failures + {On(src, kind, None, Some(e))})
        case Good(p) =>
          st.(rows := st.rows[e.id := RowOf(e, p, None, None)],
              failures := st.failures + {On(src, MissingMessage, None, Some(e))})
  }

  function ProjectEvents(st: State, src: Source, n: nat): State
    requires n <= |src.events|
  {
    if n == 0 then st else ProjectEvent(ProjectEvents(st, src, n - 1), src, src.events[n - 1])
  }

  function ProjectHeight(rows: map<nat, Row>, src: Source): State {
    ProjectEvents(ProjectMessages(rows, src, |src.messages|), src, |src.events|)
  }

  // ---- the projection as it runs ----

  class Projection {
    var rows: map<nat, Row>
    var failures: set<Failure>

    constructor ()
      ensures rows == map[] && failures == {}
    {
      rows, failures := map[], {};
    }

    method CreateFailure(f: Failure)
      modifies this`failures
      ensures failures == old(failures) + {f}
    {
      failures := failures + {f};
    }

    method StoreMessages(src: Source, ghost before: map<nat, Row>, ghost others: set<Failure>)
      returns (used: set<nat>, ambiguous: set<nat>)
      requires rows == before && failures == others
      modifies this
      ensures var st := ProjectMessages(before, src, |src.messages|);
              rows == st.rows && failures == others + st.failures && used == st.used && ambiguous == st.ambiguous
    {
      used, ambiguous := {}, {};
      for i := 0 to |src.messages|
        invariant var st := ProjectMessages(before, src, i);
                  rows == st.rows && failures == others + st.failures && used == st.used && ambiguous == st.ambiguous
      {
        var m := src.messages[i];
        match FateOf(src, m) {
          case Rejected(kind) => CreateFailure(On(src, kind, Some(m), None));
          case NoEvent => CreateFailure(On(src, MissingEvent, Some(m), None));
          case ManyEvents(first) => CreateFailure(On(src, AmbiguousEvent, Some(m), Some(first)));
          case Shared(e) =>
            if e.id !in ambiguous {
              ambiguous := ambiguous + {e.id};
              CreateFailure(On(src, AmbiguousMessage, Some(m), Some(e)));
            }
          case BadEvent(e, kind) => CreateFailure(On(src, kind, Some(m), Some(e)));
          case Paired(e, p, mp) =>
            rows := rows[e.id := RowOf(e, p, Some(mp), Some(m.id))];
            used := used + {e.id};
        }
      }
    }

    method StoreEvents(src: Source, used: set<nat>, ambiguous: set<nat>, ghost st: State, ghost others: set<Failure>)
      requires rows == st.rows && failures == others + st.failures && used == st.used && ambiguous == st.ambiguous
      modifies this
      ensures rows == ProjectEvents(st, src, |src.events|).rows
      ensures failures == others + ProjectEvents(st, src, |src.events|).failures
    {
      for i := 0 to |src.events|
        invariant var now := ProjectEvents(st, src, i);
                  rows == now.rows && failures == others + now.failures && used == now.used
                    && ambiguous == now.ambiguous
      {
        var e := src.events[i];
        if e.id !in used && e.id !in ambiguous {
          var messages := MatchingMessages(src.messages, e);
          if |messages| > 1 {
            CreateFailure(On(src, AmbiguousMessage, Some(messages[0]), Some(e)));
          } else if |messages| == 0 {
            match e.extracted {
              case Bad(kind) => CreateFailure(On(src, kind, None, Some(e)));
              case Good(p) =>
                rows := rows[e.id := RowOf(e, p, None, None)];
                CreateFailure(On(src, MissingMessage, None, Some(e)));
            }
          }
        }
      }
    }

    /** Replaces this height's failures and writes the rows of its pairs and orphans. */
    method ProjectAtHeight(src: Source)
      modifies this
      ensures rows == ProjectHeight(old(rows), src).rows
      ensures failures == (set f | f in old(failures) && f.height != src.height)
                          + ProjectHeight(old(rows), src).failures
    {
      failures := set f | f in failures && f.height != src.height;
      ghost var before, others := rows, failures;
      var used, ambiguous := StoreMessages(src, before, others);
      StoreEvents(src, used, ambiguous, ProjectMessages(before, src, |src.messages|), others);
    }
  }
}
