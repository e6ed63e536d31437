/** The fields of every lifecycle row and every failure of a height, told from its messages and events. */
module LifecycleRows {
  import opened Wrappers
  import opened Decimal
  import opened Sorting
  import opened Lifecycle
  import opened LifecycleCorrelation

  /** The event is of the type the message announces, of its transaction, names its index or none, its slot if the
      message has one, and no other operator. */
  predicate IsOf(e: Event, m: Message, p: MessagePayload) {
    && e.eventType == m.expected && e.txHash == m.txHash
    && (e.msgIndexAttr == None || e.msgIndexAttr == Some(ToDecimal(m.msgIndex)))
    && (p.slotId == None || e.slotAttr == Some(IntText(p.slotId.value)))
    && (p.operator == None || p.operator == Some("") || e.operatorAttr == None || e.operatorAttr == Some("")
        || e.operatorAttr == p.operator)
  }

  predicate IsMatch(e: Event, m: Message) {
    m.extracted.Good? && IsOf(e, m, m.extracted.payload)
  }

  lemma MatchExactly(e: Event, m: Message)
    ensures Matches(e, m) <==> IsMatch(e, m)
  {
  }

  function Either<T>(first: Option<T>, second: Option<T>): Option<T> {
    if first == None then second else first
  }

  /** What every row takes from its event. */
  predicate TellsEvent(row: Row, e: Event, p: EventPayload) {
    && row.slotId == p.slotId && row.eventType == e.eventType
    && row.oldStatus == p.oldStatus && row.newStatus == p.newStatus
    && row.consensusAddress == p.consensusAddress && row.power == p.power
  }

  /** The row of a pair: the event's fields, the message's id, evidence and authority, and operator and reason from the
      event or else from the message. */
  predicate TellsPair(row: Row, m: Message, mp: MessagePayload, e: Event, p: EventPayload) {
    && TellsEvent(row, e, p) && row.messageId == Some(m.id)
    && row.operator == Either(p.operator, mp.operator) && row.reason == Either(p.reason, mp.reason)
    && row.evidence == mp.evidence && row.authority == mp.authority
  }

  /** The row of an event without a message. */
  predicate TellsOrphan(row: Row, e: Event, p: EventPayload) {
    && TellsEvent(row, e, p) && row.messageId == None
    && row.operator == p.operator && row.reason == p.reason && row.evidence == None && row.authority == None
  }

  /** A message and an event that only match each other. */
  ghost predicate ArePaired(src: Source, m: Message, e: Event) {
    && m in src.messages && e in src.events && IsMatch(e, m)
    && (forall e' :: e' in src.events && IsMatch(e', m) ==> e' == e)
    && (forall m' :: m' in src.messages && IsMatch(e, m') ==> m' == m)
  }

  /** Every pair with a valid event payload has the pair's row. */
  lemma PairTells(rows: map<nat, Row>, src: Source, m: Message, e: Event)
    requires UniqueIds(src) && ArePaired(src, m, e) && e.extracted.Good?
    ensures var st := ProjectHeight(rows, src);
            e.id in st.rows && TellsPair(st.rows[e.id], m, m.extracted.payload, e, e.extracted.payload)
  {
    assert MutuallyUnique(src, m, e);
    PairIsWritten(rows, src, m, e);
  }

  /** Every event that no message matches, with a valid payload, has a row of its own and a report. */
  lemma OrphanTells(rows: map<nat, Row>, src: Source, e: Event)
    requires UniqueIds(src) && e in src.events && e.extracted.Good?
    requires forall m :: m in src.messages ==> !IsMatch(e, m)
    ensures var st := ProjectHeight(rows, src);
            && e.id in st.rows && TellsOrphan(st.rows[e.id], e, e.extracted.payload)
            && Failure(MissingMessage, src.height, None, Some(e.id)) in st.failures
  {
    OrphanIsWritten(rows, src, e);
  }

  // ---- the fate of a message ----

  /** The first event of several that match the message. */
  ghost predicate IsFirstOfSeveral(src: Source, m: Message, e: Event) {
    exists i, j :: 0 <= i < j < |src.events| && src.events[i] == e && IsMatch(e, m) && IsMatch(src.events[j], m)
      && forall k :: 0 <= k < i ==> !IsMatch(src.events[k], m)
  }

  /** The only event that matches the message, which another message matches too. */
  ghost predicate IsContested(src: Source, m: Message, e: Event) {
    && e in src.events && IsMatch(e, m) && (forall e' :: e' in src.events && IsMatch(e', m) ==> e' == e)
    && exists m' :: m' in src.messages && m' != m && IsMatch(e, m')
  }

  lemma {:induction false} FirstOfMatching(events: seq<Event>, m: Message) returns (i: nat)
    requires MatchingEvents(events, m) != []
    ensures i < |events| && events[i] == MatchingEvents(events, m)[0] && IsMatch(events[i], m)
    ensures forall k :: 0 <= k < i ==> !IsMatch(events[k], m)
  {
    var n := |events| - 1;
    if MatchingEvents(events[..n], m) == [] {
      NoneMatches(events[..n], m);
      i := n;
      assert forall k :: 0 <= k < n ==> events[..n][k] == events[k];
    } else {
      i := FirstOfMatching(events[..n], m);
      assert forall k :: 0 <= k < n ==> events[..n][k] == events[k];
    }
  }

  lemma {:induction false} NoneMatches(events: seq<Event>, m: Message)
    requires MatchingEvents(events, m) == []
    ensures forall k :: 0 <= k < |events| ==> !IsMatch(events[k], m)
  {
    if events != [] {
      var n := |events| - 1;
      NoneMatches(events[..n], m);
      assert forall k :: 0 <= k < n ==> events[..n][k] == events[k];
    }
  }

  lemma SeveralExactly(src: Source, m: Message, e: Event)
    requires UniqueIds(src)
    ensures IsFirstOfSeveral(src, m, e) <==>
            |MatchingEvents(src.events, m)| > 1 && MatchingEvents(src.events, m)[0] == e
  {
    var events := MatchingEvents(src.events, m);
    MatchingEventsExactly(src.events, m);
    if events != [] {
      var i := FirstOfMatching(src.events, m);
      if |events| > 1 {
        assert events[1] in events && events[0] != events[1];
        var j :| 0 <= j < |src.events| && src.events[j] == events[1];
        assert i < j;
      }
      if IsFirstOfSeveral(src, m, e) {
        var a, b :| 0 <= a < b < |src.events| && src.events[a] == e && IsMatch(e, m) && IsMatch(src.events[b], m)
          && forall k :: 0 <= k < a ==> !IsMatch(src.events[k], m);
        assert a == i;
        assert src.events[a] in events && src.events[b] in events && src.events[a] != src.events[b];
        SizeOneExactly(events, e);
      }
    } else {
      NoneMatches(src.events, m);
    }
  }

  lemma OtherMatches(src: Source, m: Message, e: Event)
    requires UniqueIds(src) && m in src.messages && IsMatch(e, m)
    ensures |MatchingMessages(src.messages, e)| > 1 <==> exists m' :: m' in src.messages && m' != m && IsMatch(e, m')
  {
    var messages := MatchingMessages(src.messages, e);
    MatchingMessagesExactly(src.messages, e);
    SizeOneExactly(messages, m);
    if |messages| > 1 {
      assert messages[0] in messages && messages[1] in messages;
    }
  }

  lemma ContestedExactly(src: Source, m: Message, e: Event)
    requires UniqueIds(src) && m in src.messages
    ensures IsContested(src, m, e) <==>
            && |MatchingEvents(src.events, m)| == 1 && MatchingEvents(src.events, m)[0] == e
            && |MatchingMessages(src.messages, e)| > 1
  {
    MatchingEventsExactly(src.events, m);
    SizeOneExactly(MatchingEvents(src.events, m), e);
    if IsMatch(e, m) {
      OtherMatches(src, m, e);
    }
  }

  /** What becomes of a message, by how many events match it and how many messages match its only one. */
  lemma FateExactly(src: Source, m: Message)
    requires UniqueIds(src) && m in src.messages
    ensures var fate := FateOf(src, m);
            && (forall kind :: fate == Rejected(kind) <==> m.extracted == Bad(kind))
            && (fate == NoEvent <==> m.extracted.Good? && forall e :: e in src.events ==> !IsMatch(e, m))
            && (forall e :: fate == ManyEvents(e) <==> IsFirstOfSeveral(src, m, e))
            && (forall e :: fate == Shared(e) <==> IsContested(src, m, e))
            && (forall e, kind :: fate == BadEvent(e, kind) <==> ArePaired(src, m, e) && e.extracted == Bad(kind))
            && (forall e, p, mp :: fate == Paired(e, p, mp) <==>
                  ArePaired(src, m, e) && e.extracted == Good(p) && m.extracted == Good(mp))
  {
    var fate, events := FateOf(src, m), MatchingEvents(src.events, m);
    MatchingEventsExactly(src.events, m);
    forall e
      ensures fate == ManyEvents(e) <==> IsFirstOfSeveral(src, m, e)
      ensures fate == Shared(e) <==> IsContested(src, m, e)
    {
      SeveralExactly(src, m, e);
      ContestedExactly(src, m, e);
      if m.extracted.Bad? {
        assert !IsFirstOfSeveral(src, m, e) && !IsContested(src, m, e);
      }
    }
    forall e
      ensures fate.Paired? && fate.e == e <==> ArePaired(src, m, e) && e.extracted.Good?
      ensures fate.BadEvent? && fate.e == e <==> ArePaired(src, m, e) && e.extracted.Bad?
    {
      PairedExactly(src, m, e);
      assert MutuallyUnique(src, m, e) <==> ArePaired(src, m, e);
    }
    if events == [] {
      assert forall e :: e in src.events ==> !IsMatch(e, m) || m.extracted.Bad?;
    } else {
      assert events[0] in events;
    }
  }

  // ---- the failures of a height ----

  /** An earlier message of the list is contested for the same event. */
  ghost predicate IsReportedBefore(src: Source, k: int, id: nat) {
    exists j :: 0 <= j < k && j < |src.messages| && IsContestedFor(src, j, id)
  }

  ghost predicate IsContestedFor(src: Source, j: int, id: nat) {
    0 <= j < |src.messages| && exists e: Event :: e.id == id && IsContested(src, src.messages[j], e)
  }

  /** The failure that the k-th message leaves, with its kind and the event it is on. A contested event is reported
      once, with its first message. */
  ghost predicate MessageFailsWith(src: Source, k: nat, kind: FailureKind, eventId: Option<nat>)
    requires k < |src.messages|
  {
    var m := src.messages[k];
    || (m.extracted == Bad(kind) && eventId == None)
    || (m.extracted.Good? && kind == MissingEvent && eventId == None
        && forall e :: e in src.events ==> !IsMatch(e, m))
    || (exists e: Event :: eventId == Some(e.id) && MessageFailsOn(src, k, kind, e))
  }

  ghost predicate MessageFailsOn(src: Source, k: nat, kind: FailureKind, e: Event)
    requires k < |src.messages|
  {
    var m := src.messages[k];
    || (kind == AmbiguousEvent && IsFirstOfSeveral(src, m, e))
    || (kind == AmbiguousMessage && IsContested(src, m, e) && !IsReportedBefore(src, k, e.id))
    || (ArePaired(src, m, e) && e.extracted == Bad(kind))
  }

  ghost predicate MessageFails(src: Source, k: int, f: Failure) {
    && 0 <= k < |src.messages|
    && f.height == src.height && f.messageId == Some(src.messages[k].id) && MessageFailsWith(src, k, f.kind, f.eventId)
  }

  ghost predicate ContestedAre(st: State, src: Source, n: nat) {
    forall id :: id in st.ambiguous <==> IsReportedBefore(src, n, id)
  }

  lemma ContestedNext(rows: map<nat, Row>, src: Source, n: nat, id: nat)
    requires UniqueIds(src) && 0 < n <= |src.messages|
    requires id in ProjectMessages(rows, src, n - 1).ambiguous <==> IsReportedBefore(src, n - 1, id)
    ensures id in ProjectMessages(rows, src, n).ambiguous <==> IsReportedBefore(src, n, id)
  {
    FateExactly(src, src.messages[n - 1]);
    assert IsReportedBefore(src, n, id) <==> IsReportedBefore(src, n - 1, id) || IsContestedFor(src, n - 1, id);
  }

  lemma {:induction false} ContestedIds(rows: map<nat, Row>, src: Source, n: nat)
    requires UniqueIds(src) && n <= |src.messages|
    ensures ContestedAre(ProjectMessages(rows, src, n), src, n)
  {
    if n > 0 {
      ContestedIds(rows, src, n - 1);
      forall id
        ensures id in ProjectMessages(rows, src, n).ambiguous <==> IsReportedBefore(src, n, id)
      {
        ContestedNext(rows, src, n, id);
      }
    }
  }

  lemma MessageFailsNext(rows: map<nat, Row>, src: Source, n: nat, f: Failure)
    requires UniqueIds(src) && 0 < n <= |src.messages|
    requires ContestedAre(ProjectMessages(rows, src, n - 1), src, n - 1)
    ensures f in ProjectMessages(rows, src, n).failures <==>
            f in ProjectMessages(rows, src, n - 1).failures || MessageFails(src, n - 1, f)
  {
    FateExactly(src, src.messages[n - 1]);
  }

  lemma {:induction false} MessagesFail(rows: map<nat, Row>, src: Source, n: nat, f: Failure)
    requires UniqueIds(src) && n <= |src.messages|
    ensures f in ProjectMessages(rows, src, n).failures <==> exists k :: k < n && MessageFails(src, k, f)
  {
    if n > 0 {
      MessagesFail(rows, src, n - 1, f);
      ContestedIds(rows, src, n - 1);
      MessageFailsNext(rows, src, n, f);
    }
  }

  ghost predicate IsFirstMatch(src: Source, m: Message, e: Event) {
    exists i :: 0 <= i < |src.messages| && src.messages[i] == m && IsMatch(e, m)
      && forall k :: 0 <= k < i ==> !IsMatch(e, src.messages[k])
  }

  ghost predicate IsMatchedTwice(src: Source, e: Event) {
    exists m, m' :: m in src.messages && m' in src.messages && m != m' && IsMatch(e, m) && IsMatch(e, m')
  }

  /** The failure of an event that is not written with a message: with the first of several messages that match it,
      unless one of them is reported for it already, or on its own. */
  ghost predicate EventFails(src: Source, k: int, f: Failure) {
    && 0 <= k < |src.events| && f.height == src.height && f.eventId == Some(src.events[k].id)
    && var e := src.events[k];
       if IsMatchedTwice(src, e) then
         && !IsReportedBefore(src, |src.messages|, e.id) && f.kind == AmbiguousMessage
         && exists m: Message :: f.messageId == Some(m.id) && IsFirstMatch(src, m, e)
       else
         && (forall m :: m in src.messages ==> !IsMatch(e, m)) && f.messageId == None
         && f.kind == if e.extracted.Bad? then e.extracted.kind else MissingMessage
  }

  lemma {:induction false} FirstMatching(messages: seq<Message>, e: Event) returns (i: nat)
    requires MatchingMessages(messages, e) != []
    ensures i < |messages| && messages[i] == MatchingMessages(messages, e)[0] && IsMatch(e, messages[i])
    ensures forall k :: 0 <= k < i ==> !IsMatch(e, messages[k])
  {
    var n := |messages| - 1;
    if MatchingMessages(messages[..n], e) == [] {
      NoMessageMatches(messages[..n], e);
      i := n;
      assert forall k :: 0 <= k < n ==> messages[..n][k] == messages[k];
    } else {
      i := FirstMatching(messages[..n], e);
      assert forall k :: 0 <= k < n ==> messages[..n][k] == messages[k];
    }
  }

  lemma {:induction false} NoMessageMatches(messages: seq<Message>, e: Event)
    requires MatchingMessages(messages, e) == []
    ensures forall k :: 0 <= k < |messages| ==> !IsMatch(e, messages[k])
  {
    if messages != [] {
      var n := |messages| - 1;
      NoMessageMatches(messages[..n], e);
      assert forall k :: 0 <= k < n ==> messages[..n][k] == messages[k];
    }
  }

  /** How many messages match an event, and which is the first. */
  lemma MatchingOf(src: Source, e: Event)
    requires UniqueIds(src)
    ensures var messages := MatchingMessages(src.messages, e);
            && (|messages| > 1 <==> IsMatchedTwice(src, e))
            && (|messages| == 0 <==> forall m :: m in src.messages ==> !IsMatch(e, m))
            && (messages != [] ==> forall m :: IsFirstMatch(src, m, e) <==> m == messages[0])
  {
    var messages := MatchingMessages(src.messages, e);
    MatchingMessagesExactly(src.messages, e);
    if messages == [] {
      NoMessageMatches(src.messages, e);
    } else {
      var i := FirstMatching(src.messages, e);
      SizeOneExactly(messages, messages[0]);
      assert messages[0] in messages;
      if |messages| > 1 {
        assert messages[1] in messages;
      }
    }
  }

  lemma EventFailsNext(st: State, src: Source, n: nat, f: Failure)
    requires UniqueIds(src) && 0 < n <= |src.events|
    requires ContestedAre(st, src, |src.messages|)
    requires src.events[n - 1].id in st.used ==> |MatchingMessages(src.messages, src.events[n - 1])| == 1
    ensures f in ProjectEvent(st, src, src.events[n - 1]).failures <==> f in st.failures || EventFails(src, n - 1, f)
  {
    MatchingOf(src, src.events[n - 1]);
  }

  lemma {:induction false} SameMarks(st: State, src: Source, n: nat)
    requires n <= |src.events|
    ensures ProjectEvents(st, src, n).used == st.used && ProjectEvents(st, src, n).ambiguous == st.ambiguous
  {
    if n > 0 {
      SameMarks(st, src, n - 1);
    }
  }

  ghost predicate UsedAreSingle(st: State, src: Source) {
    forall e :: e in src.events && e.id in st.used ==> |MatchingMessages(src.messages, e)| == 1
  }

  lemma {:induction false} EventsFail(st: State, src: Source, n: nat, f: Failure)
    requires UniqueIds(src) && n <= |src.events| && ContestedAre(st, src, |src.messages|) && UsedAreSingle(st, src)
    ensures f in ProjectEvents(st, src, n).failures <==> f in st.failures || exists k :: k < n && EventFails(src, k, f)
  {
    if n > 0 {
      EventsFail(st, src, n - 1, f);
      SameMarks(st, src, n - 1);
      var e := src.events[n - 1];
      assert e in src.events;
      EventFailsNext(ProjectEvents(st, src, n - 1), src, n, f);
    }
  }

  lemma UsedHaveOneMessage(rows: map<nat, Row>, src: Source)
    requires UniqueIds(src)
    ensures UsedAreSingle(ProjectMessages(rows, src, |src.messages|), src)
  {
    PassesOfHeight(rows, src);
    forall e | e in src.events && e.id in ProjectMessages(rows, src, |src.messages|).used
      ensures |MatchingMessages(src.messages, e)| == 1
    {
      UsedExactly(rows, src, e);
      var m :| MutuallyUnique(src, m, e);
      MatchingMessagesExactly(src.messages, e);
      SizeOneExactly(MatchingMessages(src.messages, e), m);
    }
  }

  /** The failures of a height are exactly those that its messages leave and those of the events that no message was
      written or reported with. */
  lemma FailuresExactly(rows: map<nat, Row>, src: Source, f: Failure)
    requires UniqueIds(src)
    ensures f in ProjectHeight(rows, src).failures <==>
            (exists k :: MessageFails(src, k, f)) || (exists k :: EventFails(src, k, f))
  {
    var first := ProjectMessages(rows, src, |src.messages|);
    MessagesFail(rows, src, |src.messages|, f);
    ContestedIds(rows, src, |src.messages|);
    UsedHaveOneMessage(rows, src);
    EventsFail(first, src, |src.events|, f);
  }
}
