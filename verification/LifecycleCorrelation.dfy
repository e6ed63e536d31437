/** Which lifecycle rows a height writes, stated without the order in which its messages are visited. */
module LifecycleCorrelation {
  import opened Wrappers
  import opened Lifecycle
  import opened Sorting

  // ---- which pairs are written ----

  /** Ids are primary keys. */
  ghost predicate UniqueIds(src: Source) {
    && (forall m, m' :: m in src.messages && m' in src.messages && m.id == m'.id ==> m == m')
    && (forall i, j :: 0 <= i < j < |src.messages| ==> src.messages[i].id != src.messages[j].id)
    && (forall i, j :: 0 <= i < j < |src.events| ==> src.events[i].id != src.events[j].id)
  }

  /** Each is the other's only match; no order is involved. */
  ghost predicate MutuallyUnique(src: Source, m: Message, e: Event) {
    && m in src.messages && e in src.events && Matches(e, m)
    && (forall e' :: e' in src.events && Matches(e', m) ==> e' == e)
    && (forall m' :: m' in src.messages && Matches(e, m') ==> m' == m)
  }

  ghost predicate Unmatched(src: Source, e: Event) {
    forall m :: m in src.messages ==> !Matches(e, m)
  }

  lemma {:induction false} MatchingEventsExactly(events: seq<Event>, m: Message)
    requires forall i, j :: 0 <= i < j < |events| ==> events[i].id != events[j].id
    ensures forall e :: e in MatchingEvents(events, m) <==> e in events && Matches(e, m)
    ensures forall i, j :: 0 <= i < j < |MatchingEvents(events, m)| ==>
              MatchingEvents(events, m)[i] != MatchingEvents(events, m)[j]
  {
    if events != [] {
      var n := |events| - 1;
      MatchingEventsExactly(events[..n], m);
      assert events == events[..n] + [events[n]];
      assert events[n] !in events[..n];
    }
  }

  lemma {:induction false} MatchingMessagesExactly(messages: seq<Message>, e: Event)
    requires forall i, j :: 0 <= i < j < |messages| ==> messages[i].id != messages[j].id
    ensures forall m :: m in MatchingMessages(messages, e) <==> m in messages && Matches(e, m)
    ensures forall i, j :: 0 <= i < j < |MatchingMessages(messages, e)| ==>
              MatchingMessages(messages, e)[i] != MatchingMessages(messages, e)[j]
  {
    if messages != [] {
      var n := |messages| - 1;
      MatchingMessagesExactly(messages[..n], e);
      assert messages == messages[..n] + [messages[n]];
      assert messages[n] !in messages[..n];
    }
  }

  /** A message is paired exactly with the event that it and only it matches, if the payload is valid. */
  lemma PairedExactly(src: Source, m: Message, e: Event)
    requires UniqueIds(src) && m in src.messages
    ensures FateOf(src, m).Paired? && FateOf(src, m).e == e <==> MutuallyUnique(src, m, e) && e.extracted.Good?
    ensures FateOf(src, m).BadEvent? && FateOf(src, m).e == e <==> MutuallyUnique(src, m, e) && e.extracted.Bad?
    ensures FateOf(src, m).Shared? && FateOf(src, m).e == e ==>
              e in src.events && |MatchingMessages(src.messages, e)| > 1
  {
    var events, messages := MatchingEvents(src.events, m), MatchingMessages(src.messages, e);
    MatchingEventsExactly(src.events, m);
    MatchingMessagesExactly(src.messages, e);
    SizeOneExactly(events, e);
    SizeOneExactly(messages, m);
    if events != [] {
      assert events[0] in events;
    }
    if messages != [] {
      assert messages[0] in messages;
    }
  }

  // ---- the first pass ----

  /** If the fate is a pair, its event is used and the event's row is the pair's. */
  ghost predicate IsWritten(fate: Fate, messageId: nat, st: State) {
    fate.Paired? ==>
      && fate.e.id in st.used && fate.e.id in st.rows
      && st.rows[fate.e.id] == RowOf(fate.e, fate.p, Some(fate.mp), Some(messageId))
  }

  ghost predicate RestUnchanged(rows: map<nat, Row>, st: State) {
    forall id :: id !in st.used ==> (id in st.rows <==> id in rows) && (id in rows ==> st.rows[id] == rows[id])
  }

  /** After `n` messages the rows of their pairs are written, and only those. */
  ghost predicate PairsAreWritten(rows: map<nat, Row>, src: Source, n: nat, st: State)
    requires n <= |src.messages|
  {
    && (forall k :: 0 <= k < n ==> IsWritten(FateOf(src, src.messages[k]), src.messages[k].id, st))
    && (forall id :: id in st.used ==> exists k :: 0 <= k < n && UsesEvent(FateOf(src, src.messages[k]), id))
    && RestUnchanged(rows, st)
  }

  ghost predicate UsesEvent(fate: Fate, id: nat) {
    fate.Paired? && fate.e.id == id
  }

  ghost predicate SharesEvent(fate: Fate, id: nat) {
    fate.Shared? && fate.e.id == id
  }

  lemma PairsDiffer(src: Source, i: nat, j: nat)
    requires UniqueIds(src) && i < j < |src.messages|
    requires FateOf(src, src.messages[i]).Paired? && FateOf(src, src.messages[j]).Paired?
    ensures FateOf(src, src.messages[i]).e.id != FateOf(src, src.messages[j]).e.id
  {
    var m, m' := src.messages[i], src.messages[j];
    PairedExactly(src, m, FateOf(src, m).e);
    PairedExactly(src, m', FateOf(src, m').e);
    var e, e' := FateOf(src, m).e, FateOf(src, m').e;
    if e.id == e'.id {
      SameIdSameEvent(src, e, e');
    }
  }

  lemma SameIdSameEvent(src: Source, e: Event, e': Event)
    requires UniqueIds(src) && e in src.events && e' in src.events && e.id == e'.id
    ensures e == e'
  {
    var i :| 0 <= i < |src.events| && src.events[i] == e;
    var j :| 0 <= j < |src.events| && src.events[j] == e';
    assert i == j;
  }

  /** One more message writes its pair, and leaves the rows of other events alone. */
  lemma MessageWrites(rows: map<nat, Row>, src: Source, st: State, m: Message, fate: Fate)
    requires RestUnchanged(rows, st)
    ensures var st' := ProjectMessage(st, src, m, fate);
            && IsWritten(fate, m.id, st')
            && RestUnchanged(rows, st')
            && (forall id :: id in st'.used <==> id in st.used || UsesEvent(fate, id))
  {
  }

  lemma OthersStayWritten(src: Source, st: State, m: Message, fate: Fate, other: Fate, id: nat)
    requires IsWritten(other, id, st)
    requires fate.Paired? && other.Paired? ==> fate.e.id != other.e.id
    ensures IsWritten(other, id, ProjectMessage(st, src, m, fate))
  {
  }

  lemma {:induction false} MessagesWritePairs(rows: map<nat, Row>, src: Source, n: nat)
    requires UniqueIds(src) && n <= |src.messages|
    ensures PairsAreWritten(rows, src, n, ProjectMessages(rows, src, n))
  {
    if n > 0 {
      MessagesWritePairs(rows, src, n - 1);
      var before, m := ProjectMessages(rows, src, n - 1), src.messages[n - 1];
      var fate := FateOf(src, m);
      var st := ProjectMessage(before, src, m, fate);
      MessageWrites(rows, src, before, m, fate);
      forall k | 0 <= k < n
        ensures IsWritten(FateOf(src, src.messages[k]), src.messages[k].id, st)
      {
        if k < n - 1 {
          if FateOf(src, src.messages[k]).Paired? && fate.Paired? {
            PairsDiffer(src, k, n - 1);
          }
          OthersStayWritten(src, before, m, fate, FateOf(src, src.messages[k]), src.messages[k].id);
        }
      }
      forall id | id in st.used
        ensures exists k :: 0 <= k < n && UsesEvent(FateOf(src, src.messages[k]), id)
      {
        if id in before.used {
          var k :| 0 <= k < n - 1 && UsesEvent(FateOf(src, src.messages[k]), id);
        } else {
          assert UsesEvent(FateOf(src, src.messages[n - 1]), id);
        }
      }
    }
  }

  /** A failure recorded on the event or on a message that matches it. */
  ghost predicate Accounted(src: Source, failures: set<Failure>, e: Event) {
    exists f :: f in failures && (f.eventId == Some(e.id) || IsOnMatch(src, f, e))
  }

  ghost predicate IsOnMatch(src: Source, f: Failure, e: Event) {
    exists m :: m in src.messages && Matches(e, m) && f.messageId == Some(m.id)
  }

  /** A message that matches events but is not paired leaves a failure on itself or on its event; shared
      events are remembered with a failure. */
  ghost predicate FailuresAreRecorded(src: Source, n: nat, st: State)
    requires n <= |src.messages|
  {
    && (forall k :: 0 <= k < n && FateOf(src, src.messages[k]).ManyEvents? ==>
          On(src, AmbiguousEvent, Some(src.messages[k]), Some(FateOf(src, src.messages[k]).first)) in st.failures)
    && (forall k :: 0 <= k < n && FateOf(src, src.messages[k]).BadEvent? ==>
          On(src, FateOf(src, src.messages[k]).kind, Some(src.messages[k]), Some(FateOf(src, src.messages[k]).e))
            in st.failures)
    && (forall id :: id in st.ambiguous ==> exists f :: f in st.failures && f.eventId == Some(id))
    && (forall id :: id in st.ambiguous ==> exists k :: 0 <= k < n && SharesEvent(FateOf(src, src.messages[k]), id))
  }

  lemma {:induction false} MessagesRecordFailures(rows: map<nat, Row>, src: Source, n: nat)
    requires n <= |src.messages|
    ensures FailuresAreRecorded(src, n, ProjectMessages(rows, src, n))
  {
    if n > 0 {
      MessagesRecordFailures(rows, src, n - 1);
      var before, st := ProjectMessages(rows, src, n - 1), ProjectMessages(rows, src, n);
      assert before.failures <= st.failures;
      forall id | id in st.ambiguous
        ensures exists f :: f in st.failures && f.eventId == Some(id)
        ensures exists k :: 0 <= k < n && SharesEvent(FateOf(src, src.messages[k]), id)
      {
        if id in before.ambiguous {
          var f :| f in before.failures && f.eventId == Some(id);
          assert f in st.failures;
          var k :| 0 <= k < n - 1 && SharesEvent(FateOf(src, src.messages[k]), id);
        } else {
          var m := src.messages[n - 1];
          assert SharesEvent(FateOf(src, m), id);
          assert On(src, AmbiguousMessage, Some(m), Some(FateOf(src, m).e)) in st.failures;
        }
      }
    }
  }

  // ---- the second pass ----

  /** No message matches the event, and its payload is valid. */
  predicate IsOrphan(src: Source, e: Event) {
    |MatchingMessages(src.messages, e)| == 0 && e.extracted.Good?
  }

  /** What the second pass owes an event that the first one neither used nor found shared. */
  ghost predicate IsHandled(src: Source, e: Event, st: State) {
    var messages := MatchingMessages(src.messages, e);
    && (|messages| > 1 ==> On(src, AmbiguousMessage, Some(messages[0]), Some(e)) in st.failures)
    && (|messages| == 0 && e.extracted.Bad? ==> On(src, e.extracted.kind, None, Some(e)) in st.failures)
    && (IsOrphan(src, e) ==>
          && On(src, MissingMessage, None, Some(e)) in st.failures
          && e.id in st.rows && st.rows[e.id] == RowOf(e, e.extracted.payload, None, None))
  }

  ghost predicate SameRow(st: State, st': State, id: nat) {
    (id in st.rows <==> id in st'.rows) && (id in st.rows ==> st'.rows[id] == st.rows[id])
  }

  ghost predicate Pending(st: State, e: Event) {
    e.id !in st.used && e.id !in st.ambiguous
  }

  lemma EventStep(src: Source, st: State, e: Event)
    ensures var st' := ProjectEvent(st, src, e);
            && st'.used == st.used && st'.ambiguous == st.ambiguous && st.failures <= st'.failures
            && (Pending(st, e) ==> IsHandled(src, e, st'))
            && (forall id :: id != e.id || !Pending(st, e) || !IsOrphan(src, e) ==> SameRow(st, st', id))
  {
  }

  lemma HandledStays(src: Source, e: Event, st: State, st': State)
    requires IsHandled(src, e, st) && st.failures <= st'.failures && SameRow(st, st', e.id)
    ensures IsHandled(src, e, st')
  {
  }

  ghost predicate EventsAreHandled(src: Source, first: State, n: nat, st: State)
    requires n <= |src.events|
  {
    && st.used == first.used && st.ambiguous == first.ambiguous && first.failures <= st.failures
    && (forall k :: 0 <= k < n && Pending(first, src.events[k]) ==> IsHandled(src, src.events[k], st))
    && (forall id :: (forall k :: 0 <= k < n && src.events[k].id == id ==>
                        !Pending(first, src.events[k]) || !IsOrphan(src, src.events[k])) ==> SameRow(first, st, id))
  }

  lemma {:induction false} EventsHandle(src: Source, first: State, n: nat)
    requires UniqueIds(src) && n <= |src.events|
    ensures EventsAreHandled(src, first, n, ProjectEvents(first, src, n))
  {
    if n > 0 {
      EventsHandle(src, first, n - 1);
      var before, e := ProjectEvents(first, src, n - 1), src.events[n - 1];
      var st := ProjectEvent(before, src, e);
      EventStep(src, before, e);
      forall k | 0 <= k < n && Pending(first, src.events[k])
        ensures IsHandled(src, src.events[k], st)
      {
        if k < n - 1 {
          HandledStays(src, src.events[k], before, st);
        }
      }
      forall id | forall k :: 0 <= k < n && src.events[k].id == id ==>
                    !Pending(first, src.events[k]) || !IsOrphan(src, src.events[k])
        ensures SameRow(first, st, id)
      {
        assert SameRow(first, before, id);
        assert SameRow(before, st, id);
      }
    }
  }

  // ---- the whole height ----

  lemma PassesOfHeight(rows: map<nat, Row>, src: Source)
    requires UniqueIds(src)
    ensures var first := ProjectMessages(rows, src, |src.messages|);
            && PairsAreWritten(rows, src, |src.messages|, first)
            && FailuresAreRecorded(src, |src.messages|, first)
            && EventsAreHandled(src, first, |src.events|, ProjectHeight(rows, src))
  {
    MessagesWritePairs(rows, src, |src.messages|);
    MessagesRecordFailures(rows, src, |src.messages|);
    EventsHandle(src, ProjectMessages(rows, src, |src.messages|), |src.events|);
  }

  ghost predicate HasPair(src: Source, e: Event) {
    exists m :: MutuallyUnique(src, m, e)
  }

  /** The first pass uses exactly the events of mutually unique pairs with a valid payload. */
  lemma UsedExactly(rows: map<nat, Row>, src: Source, e: Event)
    requires UniqueIds(src) && e in src.events
    requires PairsAreWritten(rows, src, |src.messages|, ProjectMessages(rows, src, |src.messages|))
    ensures e.id in ProjectMessages(rows, src, |src.messages|).used <==> HasPair(src, e) && e.extracted.Good?
  {
    var first := ProjectMessages(rows, src, |src.messages|);
    if e.id in first.used {
      var k :| 0 <= k < |src.messages| && UsesEvent(FateOf(src, src.messages[k]), e.id);
      var m := src.messages[k];
      PairedExactly(src, m, FateOf(src, m).e);
      SameIdSameEvent(src, FateOf(src, m).e, e);
      assert MutuallyUnique(src, m, e);
    }
    if HasPair(src, e) && e.extracted.Good? {
      var m :| MutuallyUnique(src, m, e);
      PairedExactly(src, m, e);
      var k :| 0 <= k < |src.messages| && src.messages[k] == m;
      assert IsWritten(FateOf(src, src.messages[k]), m.id, first);
    }
  }

  lemma SharedIsMatchedTwice(src: Source, id: nat, e: Event, st: State)
    requires UniqueIds(src) && e in src.events && e.id == id && id in st.ambiguous
    requires FailuresAreRecorded(src, |src.messages|, st)
    ensures |MatchingMessages(src.messages, e)| > 1
  {
    var k :| 0 <= k < |src.messages| && SharesEvent(FateOf(src, src.messages[k]), id);
    var m := src.messages[k];
    PairedExactly(src, m, FateOf(src, m).e);
    SameIdSameEvent(src, FateOf(src, m).e, e);
  }

  lemma UnmatchedExactly(src: Source, e: Event)
    requires UniqueIds(src)
    ensures Unmatched(src, e) <==> |MatchingMessages(src.messages, e)| == 0
  {
    MatchingMessagesExactly(src.messages, e);
    if |MatchingMessages(src.messages, e)| > 0 {
      assert MatchingMessages(src.messages, e)[0] in MatchingMessages(src.messages, e);
    }
  }

  lemma UsedRowStays(src: Source, first: State, id: nat, st: State)
    requires EventsAreHandled(src, first, |src.events|, st) && id in first.used
    ensures SameRow(first, st, id)
  {
  }

  lemma PairedPayloads(src: Source, m: Message)
    ensures var fate := FateOf(src, m);
            fate.Paired? ==> fate.e.extracted == Good(fate.p) && m.extracted == Good(fate.mp)
  {
  }

  lemma PairIsWrittenFirst(rows: map<nat, Row>, src: Source, m: Message, e: Event)
    requires UniqueIds(src) && MutuallyUnique(src, m, e) && e.extracted.Good?
    ensures var first := ProjectMessages(rows, src, |src.messages|);
            && e.id in first.used && e.id in first.rows
            && first.rows[e.id] == RowOf(e, e.extracted.payload, Some(m.extracted.payload), Some(m.id))
  {
    MessagesWritePairs(rows, src, |src.messages|);
    PairedExactly(src, m, e);
    PairedPayloads(src, m);
    var k :| 0 <= k < |src.messages| && src.messages[k] == m;
    assert IsWritten(FateOf(src, src.messages[k]), m.id, ProjectMessages(rows, src, |src.messages|));
  }

  /** The row of a mutually unique pair with a valid event payload is the pair's. */
  lemma PairIsWritten(rows: map<nat, Row>, src: Source, m: Message, e: Event)
    requires UniqueIds(src) && MutuallyUnique(src, m, e) && e.extracted.Good?
    ensures var st := ProjectHeight(rows, src);
            && e.id in st.rows
            && st.rows[e.id] == RowOf(e, e.extracted.payload, Some(m.extracted.payload), Some(m.id))
  {
    var first := ProjectMessages(rows, src, |src.messages|);
    PairIsWrittenFirst(rows, src, m, e);
    EventsHandle(src, first, |src.events|);
    UsedRowStays(src, first, e.id, ProjectHeight(rows, src));
  }

  /** The row of an event that no message matches, with a valid payload, is its own, and it is reported. */
  lemma OrphanIsWritten(rows: map<nat, Row>, src: Source, e: Event)
    requires UniqueIds(src) && e in src.events && Unmatched(src, e) && e.extracted.Good?
    ensures var st := ProjectHeight(rows, src);
            && e.id in st.rows && st.rows[e.id] == RowOf(e, e.extracted.payload, None, None)
            && On(src, MissingMessage, None, Some(e)) in st.failures
  {
    PassesOfHeight(rows, src);
    UnmatchedExactly(src, e);
    var first := ProjectMessages(rows, src, |src.messages|);
    UsedExactly(rows, src, e);
    if e.id in first.ambiguous {
      SharedIsMatchedTwice(src, e.id, e, first);
    }
    var k :| 0 <= k < |src.events| && src.events[k] == e;
    assert IsHandled(src, src.events[k], ProjectHeight(rows, src));
  }

  /** Every other row is left as it was. */
  lemma OthersAreUntouched(rows: map<nat, Row>, src: Source, id: nat)
    requires UniqueIds(src)
    requires forall e :: e in src.events && e.id == id ==> e.extracted.Bad? || (!HasPair(src, e) && !Unmatched(src, e))
    ensures var st := ProjectHeight(rows, src);
            (id in st.rows <==> id in rows) && (id in rows ==> st.rows[id] == rows[id])
  {
    PassesOfHeight(rows, src);
    var first := ProjectMessages(rows, src, |src.messages|);
    if id in first.used {
      var k :| 0 <= k < |src.messages| && UsesEvent(FateOf(src, src.messages[k]), id);
      var m := src.messages[k];
      PairedExactly(src, m, FateOf(src, m).e);
      UsedExactly(rows, src, FateOf(src, m).e);
    }
    forall k | 0 <= k < |src.events| && src.events[k].id == id
      ensures !IsOrphan(src, src.events[k])
    {
      assert src.events[k] in src.events;
      UnmatchedExactly(src, src.events[k]);
    }
    assert SameRow(first, ProjectHeight(rows, src), id);
  }

  /** An event that is not written with its message is accounted for by a failure, on it or on a message
      that matches it. */
  lemma EveryEventIsAccounted(rows: map<nat, Row>, src: Source, e: Event)
    requires UniqueIds(src) && e in src.events && !(HasPair(src, e) && e.extracted.Good?)
    ensures Accounted(src, ProjectHeight(rows, src).failures, e)
  {
    PassesOfHeight(rows, src);
    UsedExactly(rows, src, e);
    var first, st := ProjectMessages(rows, src, |src.messages|), ProjectHeight(rows, src);
    if e.id in first.ambiguous {
      var f :| f in first.failures && f.eventId == Some(e.id);
      assert f in st.failures;
    } else {
      var k :| 0 <= k < |src.events| && src.events[k] == e;
      assert IsHandled(src, src.events[k], st);
      var messages := MatchingMessages(src.messages, e);
      if |messages| == 1 {
        MatchingMessagesExactly(src.messages, e);
        assert messages[0] in messages;
        SingleMatchIsAccounted(rows, src, messages[0], e);
      }
    }
  }

  /** The only message that matches an event, when they are not paired, carries a failure. */
  lemma SingleMatchIsAccounted(rows: map<nat, Row>, src: Source, m: Message, e: Event)
    requires UniqueIds(src) && e in src.events && m in src.messages && Matches(e, m)
    requires MatchingMessages(src.messages, e) == [m] && !(HasPair(src, e) && e.extracted.Good?)
    ensures Accounted(src, ProjectHeight(rows, src).failures, e)
  {
    PassesOfHeight(rows, src);
    var first, st, fate := ProjectMessages(rows, src, |src.messages|), ProjectHeight(rows, src), FateOf(src, m);
    var k :| 0 <= k < |src.messages| && src.messages[k] == m;
    FateOfSingleMatch(src, m, e);
    var f := if fate.ManyEvents? then On(src, AmbiguousEvent, Some(m), Some(fate.first))
             else On(src, fate.kind, Some(m), Some(e));
    assert f in first.failures && f in st.failures;
    assert IsOnMatch(src, f, e);
  }

  lemma FateOfSingleMatch(src: Source, m: Message, e: Event)
    requires UniqueIds(src) && e in src.events && m in src.messages && Matches(e, m)
    requires MatchingMessages(src.messages, e) == [m] && !(HasPair(src, e) && e.extracted.Good?)
    ensures FateOf(src, m).ManyEvents? || (FateOf(src, m).BadEvent? && FateOf(src, m).e == e)
  {
    MatchingEventsExactly(src.events, m);
    PairedExactly(src, m, e);
    var events := MatchingEvents(src.events, m);
    assert e in events;
    if |events| == 1 {
      SinglesAreMutual(src, m, e);
    }
  }

  lemma SinglesAreMutual(src: Source, m: Message, e: Event)
    requires UniqueIds(src) && e in src.events && m in src.messages && Matches(e, m)
    requires |MatchingMessages(src.messages, e)| == 1 && |MatchingEvents(src.events, m)| == 1
    ensures MutuallyUnique(src, m, e)
  {
    MatchingEventsExactly(src.events, m);
    MatchingMessagesExactly(src.messages, e);
  }

  // ---- order ----

  lemma SameMatching(src: Source, src': Source)
    requires UniqueIds(src) && UniqueIds(src')
    requires (forall m :: m in src.messages <==> m in src'.messages)
             && (forall e :: e in src.events <==> e in src'.events)
    ensures forall m, e :: MutuallyUnique(src, m, e) <==> MutuallyUnique(src', m, e)
    ensures forall e :: Unmatched(src, e) <==> Unmatched(src', e)
    ensures forall e :: HasPair(src, e) <==> HasPair(src', e)
  {
    forall m, e
      ensures MutuallyUnique(src, m, e) <==> MutuallyUnique(src', m, e)
    {
    }
  }

  lemma SameRowsSameMap(st: State, st': State)
    requires forall id :: SameRow(st, st', id)
    ensures st.rows == st'.rows
  {
    forall id
      ensures id in st.rows <==> id in st'.rows
      ensures id in st.rows ==> st.rows[id] == st'.rows[id]
    {
      assert SameRow(st, st', id);
    }
  }

  /** The rows do not depend on the order of the height's messages or events. */
  lemma OrderDoesNotMatter(rows: map<nat, Row>, src: Source, src': Source)
    requires UniqueIds(src) && UniqueIds(src')
    requires (forall m :: m in src.messages <==> m in src'.messages)
             && (forall e :: e in src.events <==> e in src'.events)
    ensures ProjectHeight(rows, src).rows == ProjectHeight(rows, src').rows
  {
    SameMatching(src, src');
    var st, st' := ProjectHeight(rows, src), ProjectHeight(rows, src');
    forall id
      ensures SameRow(st, st', id)
    {
      if e :| e in src.events && e.id == id && e.extracted.Good? && HasPair(src, e) {
        var m :| MutuallyUnique(src, m, e);
        PairIsWritten(rows, src, m, e);
        PairIsWritten(rows, src', m, e);
      } else if e :| e in src.events && e.id == id && e.extracted.Good? && Unmatched(src, e) {
        OrphanIsWritten(rows, src, e);
        OrphanIsWritten(rows, src', e);
      } else {
        OthersAreUntouched(rows, src, id);
        OthersAreUntouched(rows, src', id);
      }
    }
    SameRowsSameMap(st, st');
  }
}
