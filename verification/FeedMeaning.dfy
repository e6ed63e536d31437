/** What the feed and its cursors mean: which events, in which order, and which cursor texts are refused. */
module FeedMeaning {
  import opened Wrappers
  import opened Sorting
  import opened Decimal
  import opened Codec
  import opened Feed

  /** The row stands in the table of the event's kind. */
  predicate IsStored(t: Tables, e: Event) {
    || (e.kind.Lifecycle? && e.row in t.lifecycle)
    || (e.kind.Metadata? && e.row in t.metadata)
    || (e.kind.Payout? && e.row in t.payout)
  }

  /** Lifecycle events come before metadata events, and those before payouts. */
  predicate IsEarlierKind(a: Kind, b: Kind) {
    (a.Lifecycle? && !b.Lifecycle?) || (a.Metadata? && b.Payout?)
  }

  /** What follows: a lower height, at the same height a later kind, and of the same kind a lower id. */
  predicate Follows(height: nat, kind: Kind, id: nat, e: Event) {
    || e.row.height < height
    || (e.row.height == height && IsEarlierKind(kind, e.kind))
    || (e.row.height == height && e.kind == kind && e.row.id < id)
  }

  predicate IsOf(t: Tables, slotId: nat, kind: Option<Kind>, e: Event) {
    IsStored(t, e) && e.row.slotId == slotId && (kind.Some? ==> e.kind == kind.value)
  }

  ghost predicate InFeedOrder(events: seq<Event>) {
    forall i, j :: 0 <= i < j < |events| ==>
      Follows(events[i].row.height, events[i].kind, events[i].row.id, events[j])
  }

  lemma RankExactly(a: Kind, b: Kind)
    ensures KindRank(a) < KindRank(b) <==> IsEarlierKind(a, b)
  {
  }

  lemma BeforeExactly(a: Event, b: Event)
    ensures Before(a, b) <==> Follows(a.row.height, a.kind, a.row.id, b)
  {
    RankExactly(a.kind, b.kind);
  }

  lemma KindsExactly(kind: Option<Kind>, k: Kind)
    ensures k in Kinds(kind) <==> (kind.Some? ==> k == kind.value)
  {
    assert EVENT_KINDS[0] == Lifecycle && EVENT_KINDS[1] == Metadata && EVENT_KINDS[2] == Payout;
  }

  lemma InOrderOf(events: seq<Event>)
    requires Increasing(events, Before)
    ensures InFeedOrder(events)
  {
    forall i, j | 0 <= i < j < |events|
      ensures Follows(events[i].row.height, events[i].kind, events[i].row.id, events[j])
    {
      BeforeExactly(events[i], events[j]);
    }
  }

  /** The whole feed holds exactly the slot's rows of the asked kind, each from its kind's table, newest first. */
  lemma FeedExactly(t: Tables, slotId: nat, kind: Option<Kind>)
    requires t.Valid()
    ensures InFeedOrder(WholeFeed(t, slotId, kind))
    ensures forall e :: e in WholeFeed(t, slotId, kind) <==> IsOf(t, slotId, kind, e)
  {
    RemainingExactly(t, slotId, None, kind);
    InOrderOf(WholeFeed(t, slotId, kind));
    forall e
      ensures IsAfter(e, t, Kinds(kind), slotId, None) <==> IsOf(t, slotId, kind, e)
    {
      KindsExactly(kind, e.kind);
    }
  }

  /** What is left behind a cursor holds exactly the rows of the feed that follow it. */
  lemma LeftExactly(t: Tables, slotId: nat, c: Cursor, kind: Option<Kind>)
    requires t.Valid()
    ensures InFeedOrder(Remaining(t, slotId, Some(c), kind))
    ensures forall e :: e in Remaining(t, slotId, Some(c), kind) <==>
              IsOf(t, slotId, kind, e) && Follows(c.height, c.kind, c.id, e)
  {
    RemainingExactly(t, slotId, Some(c), kind);
    InOrderOf(Remaining(t, slotId, Some(c), kind));
    forall e
      ensures IsAfter(e, t, Kinds(kind), slotId, Some(c)) <==>
              IsOf(t, slotId, kind, e) && Follows(c.height, c.kind, c.id, e)
    {
      KindsExactly(kind, e.kind);
      RankExactly(c.kind, e.kind);
    }
  }

  // ---- cursor texts ----

  /** At most twenty digits, with a value of at most 2^63 - 1. */
  predicate IsNumberText(text: string, n: nat) {
    && 1 <= |text| <= 20 && AllDigits(text) && Value(text) == n && n <= 9223372036854775807
  }

  /** The text of a cursor: its three parts joined by colons, in base64url. */
  ghost predicate IsCursorText(raw: string, c: Cursor) {
    exists height: string, id: string ::
      IsNumberText(height, c.height) && IsNumberText(id, c.id)
      && raw == EncodeKeyset([height, KindName(c.kind), id])
  }

  function KindName(kind: Kind): string {
    if kind.Lifecycle? then "lifecycle" else if kind.Metadata? then "metadata" else "payout"
  }

  lemma NumberTextExactly(text: string, n: nat)
    ensures ParseUint64(text) == Some(n) <==> IsNumberText(text, n)
  {
  }

  lemma KindNameExactly(text: string, kind: Kind)
    ensures KindOfText(text) == Some(kind) <==> text == KindName(kind)
  {
    assert "lifecycle"[0] == 'l' && "metadata"[0] == 'm' && "payout"[0] == 'p';
  }

  lemma PartsAreKeys(height: string, kind: Kind, id: string, c: Cursor)
    requires IsNumberText(height, c.height) && IsNumberText(id, c.id)
    ensures KeyParts([height, KindName(kind), id])
  {
    DigitsAreColonFree(height);
    DigitsAreColonFree(id);
    assert ':' !in "lifecycle" && ':' !in "metadata" && ':' !in "payout";
  }

  /** Which texts are decoded into a cursor. */
  lemma CursorTextExactly(raw: string, c: Cursor)
    ensures DecodeEventCursor(raw) == Some(c) <==> IsCursorText(raw, c)
  {
    if DecodeEventCursor(raw) == Some(c) {
      var parts := DecodeKeyset(raw, 3).value;
      DecodeKeysetExactly(raw, parts);
      NumberTextExactly(parts[0], c.height);
      NumberTextExactly(parts[2], c.id);
      KindNameExactly(parts[1], c.kind);
      assert parts == [parts[0], KindName(c.kind), parts[2]];
    }
    if height: string, id: string :| IsNumberText(height, c.height) && IsNumberText(id, c.id)
                                     && raw == EncodeKeyset([height, KindName(c.kind), id]) {
      PartsAreKeys(height, c.kind, id, c);
      DecodeKeysetExactly(raw, [height, KindName(c.kind), id]);
      NumberTextExactly(height, c.height);
      NumberTextExactly(id, c.id);
      KindNameExactly(KindName(c.kind), c.kind);
    }
  }

  /** A request is refused exactly when it brings a text that is no cursor's; otherwise it gets the next page of what is
      left behind the cursor that the text spells, in whichever way. */
  lemma ResponseExactly(t: Tables, slotId: nat, raw: string, kind: Option<Kind>, limit: nat)
    requires t.Valid() && limit >= 1
    ensures EventsPage(t, slotId, Some(raw), kind, limit).InvalidCursor? <==> forall c :: !IsCursorText(raw, c)
    ensures forall c :: IsCursorText(raw, c) ==>
              EventsPage(t, slotId, Some(raw), kind, limit) == NextPage(Remaining(t, slotId, Some(c), kind), limit)
  {
    if DecodeEventCursor(raw).Some? {
      CursorTextExactly(raw, DecodeEventCursor(raw).value);
    }
    forall c | IsCursorText(raw, c)
      ensures EventsPage(t, slotId, Some(raw), kind, limit) == NextPage(Remaining(t, slotId, Some(c), kind), limit)
    {
      CursorTextExactly(raw, c);
      PageIsNext(t, slotId, Some(c), kind, limit);
      PageOfFetched(Remaining(t, slotId, Some(c), kind), limit);
    }
  }
}
