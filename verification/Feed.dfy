/** The merged event feed of a slot: three tables read in keyset pages, one feed newest first. */
module Feed {
  import opened Wrappers
  import opened Sorting
  import opened Decimal
  import opened Codec

  datatype Kind = Lifecycle | Metadata | Payout

  const EVENT_KINDS: seq<Kind> := [Lifecycle, Metadata, Payout]

  /** A kind's position in `EVENT_KINDS`. */
  function KindRank(kind: Kind): nat {
    match kind
    case Lifecycle => 0
    case Metadata => 1
    case Payout => 2
  }

  datatype Row = Row(id: nat, slotId: nat, height: nat, detail: string)

  datatype Event = Event(kind: Kind, row: Row)

  datatype Tables = Tables(lifecycle: seq<Row>, metadata: seq<Row>, payout: seq<Row>) {
    function Rows(kind: Kind): seq<Row> {
      match kind
      case Lifecycle => lifecycle
      case Metadata => metadata
      case Payout => payout
    }

    /** `id` is each table's primary key, and columns hold non-negative 64-bit integers. */
    ghost predicate Valid() {
      forall kind :: UniqueIds(Rows(kind)) && FitInt64(Rows(kind))
    }
  }

  ghost predicate UniqueIds(rows: seq<Row>) {
    forall i, j :: 0 <= i < j < |rows| ==> rows[i].id != rows[j].id
  }

  ghost predicate FitInt64(rows: seq<Row>) {
    forall r :: r in rows ==> r.id <= INT64_MAX && r.height <= INT64_MAX
  }

  // ---- the repository ----

  datatype Cursor = Cursor(height: nat, kind: Kind, id: nat)

  /** Feed order: newer height first, then kind by rank, then newer id. */
  predicate Before(a: Event, b: Event) {
    if a.row.height != b.row.height then a.row.height > b.row.height
    else if a.kind != b.kind then KindRank(a.kind) < KindRank(b.kind)
    else a.row.id > b.row.id
  }

  /** The order each table is read in: newer height first, then newer id. */
  predicate RowBefore(a: Event, b: Event) {
    a.row.height > b.row.height || (a.row.height == b.row.height && a.row.id > b.row.id)
  }

  /** The condition pushed into each table's query. */
  predicate CursorFilter(kind: Kind, row: Row, cursor: Option<Cursor>) {
    match cursor
    case None => true
    case Some(c) =>
      || row.height < c.height
      || (if kind == c.kind then row.height == c.height && row.id < c.id
          else KindRank(kind) > KindRank(c.kind) && row.height == c.height)
  }

  /** A table's rows that match the slot and the cursor, as events, in no particular order. */
  function Matching(rows: seq<Row>, kind: Kind, slotId: nat, cursor: Option<Cursor>): seq<Event> {
    if rows == [] then []
    else
      var n := |rows| - 1;
      var earlier := Matching(rows[..n], kind, slotId, cursor);
      if rows[n].slotId == slotId && CursorFilter(kind, rows[n], cursor) then earlier + [Event(kind, rows[n])]
      else earlier
  }

  function FetchKind(t: Tables, kind: Kind, slotId: nat, cursor: Option<Cursor>, take: nat): seq<Event> {
    Take(Sort(Matching(t.Rows(kind), kind, slotId, cursor), RowBefore), take)
  }

  function Fetch(t: Tables, kinds: seq<Kind>, slotId: nat, cursor: Option<Cursor>, take: nat): seq<Event> {
    if kinds == [] then []
    else
      var n := |kinds| - 1;
      Fetch(t, kinds[..n], slotId, cursor, take) + FetchKind(t, kinds[n], slotId, cursor, take)
  }

  function Kinds(kind: Option<Kind>): seq<Kind> {
    if kind.Some? then [kind.value] else EVENT_KINDS
  }

  function ListSlotEvents(t: Tables, slotId: nat, cursor: Option<Cursor>, kind: Option<Kind>, limit: nat)
    : seq<Event>
  {
    Take(Sort(Fetch(t, Kinds(kind), slotId, cursor, limit + 1), Before), limit + 1)
  }

  // ---- the feed ----

  /** All of the slot's events of these kinds after the cursor. */
  function After(t: Tables, kinds: seq<Kind>, slotId: nat, cursor: Option<Cursor>): seq<Event> {
    if kinds == [] then []
    else
      var n := |kinds| - 1;
      After(t, kinds[..n], slotId, cursor) + Matching(t.Rows(kinds[n]), kinds[n], slotId, cursor)
  }

  /** What is left of the feed after the cursor, in feed order. */
  function Remaining(t: Tables, slotId: nat, cursor: Option<Cursor>, kind: Option<Kind>): seq<Event> {
    Sort(After(t, Kinds(kind), slotId, cursor), Before)
  }

  function WholeFeed(t: Tables, slotId: nat, kind: Option<Kind>): seq<Event> {
    Remaining(t, slotId, None, kind)
  }

  ghost predicate IsAfter(e: Event, t: Tables, kinds: seq<Kind>, slotId: nat, cursor: Option<Cursor>) {
    && e.kind in kinds
    && e.row in t.Rows(e.kind)
    && e.row.slotId == slotId
    && CursorFilter(e.kind, e.row, cursor)
  }

  lemma OrdersAreStrict()
    ensures StrictOrder(Before) && StrictOrder(RowBefore)
  {
  }

  lemma {:induction false} MatchingExactly(rows: seq<Row>, kind: Kind, slotId: nat, cursor: Option<Cursor>)
    requires UniqueIds(rows)
    ensures Distinct(Matching(rows, kind, slotId, cursor))
    ensures forall e :: e in Matching(rows, kind, slotId, cursor) <==>
              e.kind == kind && e.row in rows && e.row.slotId == slotId && CursorFilter(kind, e.row, cursor)
  {
    if rows != [] {
      var n := |rows| - 1;
      MatchingExactly(rows[..n], kind, slotId, cursor);
      assert rows == rows[..n] + [rows[n]];
      assert rows[n] !in rows[..n];
    }
  }

  lemma SameIdSameRow(rows: seq<Row>, a: Row, b: Row)
    requires UniqueIds(rows) && a in rows && b in rows && a.id == b.id
    ensures a == b
  {
    var i :| 0 <= i < |rows| && rows[i] == a;
    var j :| 0 <= j < |rows| && rows[j] == b;
    assert i == j;
  }

  /** Any two events of the tables are ordered. */
  lemma EventsAreComparable(t: Tables, events: set<Event>)
    requires t.Valid() && forall e :: e in events ==> e.row in t.Rows(e.kind)
    ensures Comparable(events, Before)
  {
    forall a, b | a in events && b in events && a != b
      ensures Before(a, b) || Before(b, a)
    {
      if a.kind == b.kind && a.row.id == b.row.id {
        SameIdSameRow(t.Rows(a.kind), a.row, b.row);
      }
    }
  }

  ghost predicate DistinctKinds(kinds: seq<Kind>) {
    forall i, j :: 0 <= i < j < |kinds| ==> kinds[i] != kinds[j]
  }

  lemma {:induction false} AfterExactly(t: Tables, kinds: seq<Kind>, slotId: nat, cursor: Option<Cursor>)
    requires t.Valid() && DistinctKinds(kinds)
    ensures Distinct(After(t, kinds, slotId, cursor))
    ensures forall e :: e in After(t, kinds, slotId, cursor) <==> IsAfter(e, t, kinds, slotId, cursor)
  {
    if kinds != [] {
      var n := |kinds| - 1;
      AfterExactly(t, kinds[..n], slotId, cursor);
      MatchingExactly(t.Rows(kinds[n]), kinds[n], slotId, cursor);
      assert kinds == kinds[..n] + [kinds[n]];
      assert kinds[n] !in kinds[..n];
      ConcatIsDistinct(After(t, kinds[..n], slotId, cursor), Matching(t.Rows(kinds[n]), kinds[n], slotId, cursor));
    }
  }

  lemma ConcatIsDistinct<T>(a: seq<T>, b: seq<T>)
    requires Distinct(a) && Distinct(b) && forall x :: x in a ==> x !in b
    ensures Distinct(a + b)
  {
    forall i, j | 0 <= i < j < |a + b|
      ensures (a + b)[i] != (a + b)[j]
    {
      if i < |a| <= j {
        assert a[i] in a && b[j - |a|] in b;
      }
    }
  }

  /** What is left is in feed order and holds exactly the slot's events after the cursor. */
  lemma RemainingExactly(t: Tables, slotId: nat, cursor: Option<Cursor>, kind: Option<Kind>)
    requires t.Valid()
    ensures Increasing(Remaining(t, slotId, cursor, kind), Before)
    ensures forall e :: e in Remaining(t, slotId, cursor, kind) <==> IsAfter(e, t, Kinds(kind), slotId, cursor)
  {
    OrdersAreStrict();
    var after := After(t, Kinds(kind), slotId, cursor);
    AfterExactly(t, Kinds(kind), slotId, cursor);
    EventsAreComparable(t, Elements(after));
    SortIncreases(after, Before);
  }

  // ---- one page is the next part of the feed ----

  /** A table's own order puts its events in feed order. */
  lemma TableOrderIsFeedOrder(t: Tables, kind: Kind, slotId: nat, cursor: Option<Cursor>)
    requires t.Valid()
    ensures var rows := Matching(t.Rows(kind), kind, slotId, cursor);
            && Increasing(Sort(rows, RowBefore), Before)
            && forall e :: e in Sort(rows, RowBefore) <==> IsAfter(e, t, [kind], slotId, cursor)
  {
    OrdersAreStrict();
    var rows := Matching(t.Rows(kind), kind, slotId, cursor);
    MatchingExactly(t.Rows(kind), kind, slotId, cursor);
    EventsAreComparable(t, Elements(rows));
    assert forall a, b :: a in rows && b in rows ==> (Before(a, b) <==> RowBefore(a, b));
    assert forall e :: e in Elements(rows) <==> e in rows;
    assert Comparable(Elements(rows), RowBefore);
    SortIncreases(rows, RowBefore);
    var sorted := Sort(rows, RowBefore);
    forall i, j | 0 <= i < j < |sorted|
      ensures Before(sorted[i], sorted[j])
    {
      assert sorted[i] in sorted && sorted[j] in sorted;
    }
  }

  /** Fetching per kind keeps the events distinct, and keeps only events after the cursor. */
  lemma {:induction false} FetchIsSound(t: Tables, kinds: seq<Kind>, slotId: nat, cursor: Option<Cursor>, take: nat)
    requires t.Valid() && DistinctKinds(kinds)
    ensures Distinct(Fetch(t, kinds, slotId, cursor, take))
    ensures forall e :: e in Fetch(t, kinds, slotId, cursor, take) ==> IsAfter(e, t, kinds, slotId, cursor)
  {
    if kinds != [] {
      var n := |kinds| - 1;
      FetchIsSound(t, kinds[..n], slotId, cursor, take);
      TableOrderIsFeedOrder(t, kinds[n], slotId, cursor);
      OrdersAreStrict();
      var sorted := Sort(Matching(t.Rows(kinds[n]), kinds[n], slotId, cursor), RowBefore);
      IncreasingIsDistinct(sorted, Before);
      assert kinds == kinds[..n] + [kinds[n]];
      assert kinds[n] !in kinds[..n];
      assert forall e :: e in Take(sorted, take) ==> e in sorted;
      ConcatIsDistinct(Fetch(t, kinds[..n], slotId, cursor, take), Take(sorted, take));
    }
  }

  lemma {:induction false} FetchKeepsKind(t: Tables, kinds: seq<Kind>, slotId: nat, cursor: Option<Cursor>, take: nat,
                                          e: Event)
    requires e.kind in kinds && e in FetchKind(t, e.kind, slotId, cursor, take)
    ensures e in Fetch(t, kinds, slotId, cursor, take)
  {
    var n := |kinds| - 1;
    assert kinds == kinds[..n] + [kinds[n]];
    if e.kind != kinds[n] {
      FetchKeepsKind(t, kinds[..n], slotId, cursor, take, e);
    }
  }

  /** An event among the next `take` of the merged feed is among the `take` its own table returns. */
  lemma NextIsFetched(t: Tables, slotId: nat, cursor: Option<Cursor>, kind: Option<Kind>, take: nat, e: Event)
    requires t.Valid() && e in Take(Remaining(t, slotId, cursor, kind), take)
    ensures e in Fetch(t, Kinds(kind), slotId, cursor, take)
  {
    var rest := Remaining(t, slotId, cursor, kind);
    var own := Sort(Matching(t.Rows(e.kind), e.kind, slotId, cursor), RowBefore);
    RemainingExactly(t, slotId, cursor, kind);
    assert e in rest;
    TableOrderIsFeedOrder(t, e.kind, slotId, cursor);
    OrdersAreStrict();
    PrefixOfSublist(rest, own, e, take, Before);
    FetchKeepsKind(t, Kinds(kind), slotId, cursor, take, e);
  }

  /** The fetched events, sorted, are part of what is left of the feed. */
  lemma FetchedIncreases(t: Tables, slotId: nat, cursor: Option<Cursor>, kind: Option<Kind>, take: nat)
    requires t.Valid()
    ensures var fetched := Fetch(t, Kinds(kind), slotId, cursor, take);
            && Increasing(Sort(fetched, Before), Before)
            && (forall e :: e in Sort(fetched, Before) <==> e in fetched)
            && (forall e :: e in fetched ==> e in Remaining(t, slotId, cursor, kind))
  {
    var fetched := Fetch(t, Kinds(kind), slotId, cursor, take);
    OrdersAreStrict();
    RemainingExactly(t, slotId, cursor, kind);
    FetchIsSound(t, Kinds(kind), slotId, cursor, take);
    EventsAreComparable(t, Elements(fetched));
    SortIncreases(fetched, Before);
  }

  /** The merged query returns exactly the next `limit + 1` events of the feed after the cursor. */
  lemma PageIsNext(t: Tables, slotId: nat, cursor: Option<Cursor>, kind: Option<Kind>, limit: nat)
    requires t.Valid()
    ensures ListSlotEvents(t, slotId, cursor, kind, limit) == Take(Remaining(t, slotId, cursor, kind), limit + 1)
  {
    var rest := Remaining(t, slotId, cursor, kind);
    var fetched := Fetch(t, Kinds(kind), slotId, cursor, limit + 1);
    OrdersAreStrict();
    RemainingExactly(t, slotId, cursor, kind);
    FetchedIncreases(t, slotId, cursor, kind, limit + 1);
    forall e | e in Take(rest, limit + 1)
      ensures e in Sort(fetched, Before)
    {
      NextIsFetched(t, slotId, cursor, kind, limit + 1, e);
    }
    PrefixIsDetermined(rest, Sort(fetched, Before), limit + 1, Before);
  }

  // ---- the handler ----

  function KindText(kind: Kind): string {
    match kind
    case Lifecycle => "lifecycle"
    case Metadata => "metadata"
    case Payout => "payout"
  }

  function KindOfText(text: string): Option<Kind> {
    if text == "lifecycle" then Some(Lifecycle)
    else if text == "metadata" then Some(Metadata)
    else if text == "payout" then Some(Payout)
    else None
  }

  function CursorParts(c: Cursor): seq<string> {
    [ToDecimal(c.height), KindText(c.kind), ToDecimal(c.id)]
  }

  function EncodeEventCursor(c: Cursor): string {
    EncodeKeyset(CursorParts(c))
  }

  function DecodeEventCursor(raw: string): Option<Cursor> {
    match DecodeKeyset(raw, 3)
    case None => None
    case Some(parts) =>
      var height, kind, id := ParseUint64(parts[0]), KindOfText(parts[1]), ParseUint64(parts[2]);
      if kind.None? || height.None? || id.None? then None
      else Some(Cursor(height.value, kind.value, id.value))
  }

  datatype Response = InvalidCursor | Page(data: seq<Event>, nextCursor: Option<string>)

  function EventsPage(t: Tables, slotId: nat, raw: Option<string>, kind: Option<Kind>, limit: nat): Response {
    if raw.Some? && DecodeEventCursor(raw.value).None? then InvalidCursor
    else
      var cursor := if raw.Some? then DecodeEventCursor(raw.value) else None;
      PageFrom(ListSlotEvents(t, slotId, cursor, kind, limit), limit)
  }

  function PageFrom(fetched: seq<Event>, limit: nat): Response {
    var hasMore := |fetched| > limit;
    var rows := if hasMore then fetched[..limit] else fetched;
    var nextCursor := if hasMore && rows != [] then Some(EncodeEventCursor(CursorOf(rows[|rows| - 1]))) else None;
    Page(rows, nextCursor)
  }

  function CursorOf(e: Event): Cursor {
    Cursor(e.row.height, e.kind, e.row.id)
  }

  lemma DigitsAreColonFree(s: string)
    requires AllDigits(s)
    ensures ':' !in s
  {
    forall i | 0 <= i < |s|
      ensures s[i] != ':'
    {
      assert IsDigit(s[i]);
    }
  }

  lemma KindTextReadsBack(kind: Kind)
    ensures KindOfText(KindText(kind)) == Some(kind)
    ensures ':' !in KindText(kind) && KindText(kind) != ""
  {
  }

  lemma CursorPartsAreKeyParts(c: Cursor)
    ensures KeyParts(CursorParts(c))
  {
    DigitsAreColonFree(ToDecimal(c.height));
    DigitsAreColonFree(ToDecimal(c.id));
    KindTextReadsBack(c.kind);
  }

  /** A cursor survives the round trip exactly when its numbers fit a signed 64-bit integer. */
  lemma EventCursorRoundTrip(c: Cursor)
    ensures DecodeEventCursor(EncodeEventCursor(c)) ==
            if c.height <= INT64_MAX && c.id <= INT64_MAX then Some(c) else None
  {
    CursorPartsAreKeyParts(c);
    DecodeKeysetExactly(EncodeEventCursor(c), CursorParts(c));
    KindTextReadsBack(c.kind);
    ParseUint64OfDecimal(c.height);
    ParseUint64OfDecimal(c.id);
  }

  lemma CursorMeansLater(t: Tables, last: Event, e: Event)
    requires t.Valid() && e.row in t.Rows(e.kind) && last.row in t.Rows(last.kind)
    ensures CursorFilter(e.kind, e.row, Some(CursorOf(last))) <==> Before(last, e)
  {
  }

  lemma ContinuesWith(t: Tables, slotId: nat, cursor: Option<Cursor>, kind: Option<Kind>, n: nat, e: Event)
    requires t.Valid() && 0 < n <= |Remaining(t, slotId, cursor, kind)|
    ensures var rest := Remaining(t, slotId, cursor, kind);
            e in Remaining(t, slotId, Some(CursorOf(rest[n - 1])), kind) <==> e in rest[n..]
  {
    var rest := Remaining(t, slotId, cursor, kind);
    var last := rest[n - 1];
    RemainingExactly(t, slotId, cursor, kind);
    RemainingExactly(t, slotId, Some(CursorOf(last)), kind);
    assert last in rest;
    SuffixIsLater(rest, n, e);
    if e.row in t.Rows(e.kind) {
      CursorMeansLater(t, last, e);
      if CursorFilter(e.kind, e.row, Some(CursorOf(last))) {
        FilterNarrows(e, last, cursor);
      }
    }
  }

  /** Continuing after the n-th event leaves exactly the events behind it. */
  lemma RemainingContinues(t: Tables, slotId: nat, cursor: Option<Cursor>, kind: Option<Kind>, n: nat)
    requires t.Valid() && 0 < n <= |Remaining(t, slotId, cursor, kind)|
    ensures var rest := Remaining(t, slotId, cursor, kind);
            Remaining(t, slotId, Some(CursorOf(rest[n - 1])), kind) == rest[n..]
  {
    var rest := Remaining(t, slotId, cursor, kind);
    var next := Remaining(t, slotId, Some(CursorOf(rest[n - 1])), kind);
    OrdersAreStrict();
    RemainingExactly(t, slotId, cursor, kind);
    RemainingExactly(t, slotId, Some(CursorOf(rest[n - 1])), kind);
    SuffixIsLater(rest, n, rest[n - 1]);
    forall e
      ensures e in next <==> e in rest[n..]
    {
      ContinuesWith(t, slotId, cursor, kind, n, e);
    }
    IncreasingDetermines(next, rest[n..], Before);
  }

  lemma FilterNarrows(e: Event, last: Event, cursor: Option<Cursor>)
    requires CursorFilter(last.kind, last.row, cursor)
    requires CursorFilter(e.kind, e.row, Some(CursorOf(last)))
    ensures CursorFilter(e.kind, e.row, cursor)
  {
  }

  lemma SuffixIsLater(rest: seq<Event>, n: nat, e: Event)
    requires Increasing(rest, Before) && 0 < n <= |rest|
    ensures Increasing(rest[n..], Before)
    ensures e in rest[n..] <==> e in rest && Before(rest[n - 1], e)
  {
    OrdersAreStrict();
    if e in rest && Before(rest[n - 1], e) {
      var k :| 0 <= k < |rest| && rest[k] == e;
      assert k >= n;
      assert rest[n..][k - n] == e;
    }
    if e in rest[n..] {
      var k :| 0 <= k < |rest[n..]| && rest[n..][k] == e;
      assert rest[n + k] == e;
    }
  }

  /** The text a client holds for a cursor. */
  function RawOf(cursor: Option<Cursor>): Option<string> {
    if cursor.Some? then Some(EncodeEventCursor(cursor.value)) else None
  }

  predicate Fits(cursor: Option<Cursor>) {
    cursor.Some? ==> cursor.value.height <= INT64_MAX && cursor.value.id <= INT64_MAX
  }

  /** The response a client should get when `rest` is left: the next `limit` events, and a cursor at the
      last of them exactly when more are left. */
  function NextPage(rest: seq<Event>, limit: nat): Response
    requires limit >= 1
  {
    Page(Take(rest, limit), RawOf(if |rest| > limit then Some(CursorOf(rest[limit - 1])) else None))
  }

  lemma PageOfFetched(rest: seq<Event>, limit: nat)
    requires limit >= 1
    ensures PageFrom(Take(rest, limit + 1), limit) == NextPage(rest, limit)
  {
    if |rest| > limit {
      assert rest[..limit + 1][..limit] == rest[..limit];
    }
  }

  /** One response to a client holding a cursor is the next page of what is left. */
  lemma PageIsNextPage(t: Tables, slotId: nat, cursor: Option<Cursor>, kind: Option<Kind>, limit: nat)
    requires t.Valid() && limit >= 1 && Fits(cursor)
    ensures EventsPage(t, slotId, RawOf(cursor), kind, limit) == NextPage(Remaining(t, slotId, cursor, kind), limit)
  {
    if cursor.Some? {
      EventCursorRoundTrip(cursor.value);
    }
    PageIsNext(t, slotId, cursor, kind, limit);
    PageOfFetched(Remaining(t, slotId, cursor, kind), limit);
  }

  lemma EventsFit(t: Tables, slotId: nat, cursor: Option<Cursor>, kind: Option<Kind>, e: Event)
    requires t.Valid() && e in Remaining(t, slotId, cursor, kind)
    ensures Fits(Some(CursorOf(e)))
  {
    RemainingExactly(t, slotId, cursor, kind);
  }

  lemma ReadOn(whole: seq<Event>, feed: seq<Event>, limit: nat)
    requires limit >= 1 && |feed| <= |whole| && feed == whole[..|feed|]
    ensures var page := NextPage(whole[|feed|..], limit);
            var longer := feed + page.data;
            && |longer| <= |whole| && longer == whole[..|longer|]
            && (page.nextCursor.None? ==> longer == whole)
            && (page.nextCursor.Some? ==>
                  && |page.data| == limit
                  && page.nextCursor == RawOf(Some(CursorOf(page.data[limit - 1])))
                  && whole[|feed|..][limit - 1] == page.data[limit - 1]
                  && whole[|feed|..][limit..] == whole[|longer|..])
  {
    TakeNext(whole, |feed|, limit);
  }

  /** A client that follows `nextCursor` until it is absent has read the whole feed, in order, once. */
  method ReadAll(t: Tables, slotId: nat, kind: Option<Kind>, limit: nat) returns (feed: seq<Event>)
    requires t.Valid() && limit >= 1
    ensures feed == WholeFeed(t, slotId, kind)
  {
    ghost var whole := WholeFeed(t, slotId, kind);
    ghost var cursor: Option<Cursor> := None;
    var raw: Option<string> := None;
    feed := [];
    while true
      invariant raw == RawOf(cursor) && Fits(cursor)
      invariant |feed| <= |whole| && feed == whole[..|feed|]
      invariant Remaining(t, slotId, cursor, kind) == whole[|feed|..]
      decreases |whole| - |feed|
    {
      PageIsNextPage(t, slotId, cursor, kind, limit);
      ReadOn(whole, feed, limit);
      var page := EventsPage(t, slotId, raw, kind, limit);
      feed := feed + page.data;
      if page.nextCursor.None? {
        return;
      }
      ghost var last := page.data[limit - 1];
      EventsFit(t, slotId, cursor, kind, last);
      RemainingContinues(t, slotId, cursor, kind, limit);
      raw, cursor := page.nextCursor, Some(CursorOf(last));
    }
  }
}
