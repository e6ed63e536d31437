/** Where every field stands in the byte strings that are hashed for a draw. */
module DrawLayout {
  import opened Bytes
  import Decimal
  import opened Hex
  import Utf8
  import opened DrawFraming

  /** `part` stands in `b` at this offset. */
  predicate At(b: seq<byte>, offset: nat, part: seq<byte>) {
    offset + |part| <= |b| && b[offset..offset + |part|] == part
  }

  /** The characters of an ASCII text, one byte each. */
  predicate TextAt(b: seq<byte>, offset: nat, text: string) {
    offset + |text| <= |b| && forall i :: 0 <= i < |text| ==> b[offset + i] == text[i] as int
  }

  /** The number in `width` bytes from an offset on, the most significant first. */
  function Word(b: seq<byte>, offset: nat, width: nat): nat
    requires offset + width <= |b|
  {
    if width == 0 then 0 else 256 * Word(b, offset, width - 1) + b[offset + width - 1] as int
  }

  predicate NumberAt(b: seq<byte>, offset: nat, n: nat) {
    offset + 8 <= |b| && Word(b, offset, 8) == n
  }

  /** The context behind a domain of `d` bytes: the length of the chain id in two bytes, the chain id in UTF-8, slot and
      epoch. */
  predicate ContextAt(b: seq<byte>, d: nat, ctx: Context) {
    var id := Utf8.Encode(ctx.chainId);
    && d + 2 <= |b| && Word(b, d, 2) == |id|
    && At(b, d + 2, id) && NumberAt(b, d + 2 + |id|, ctx.slotId) && NumberAt(b, d + 10 + |id|, ctx.epoch)
  }

  /** Where the context ends. */
  function AfterContext(d: nat, ctx: Context): nat {
    d + 18 + |Utf8.Encode(ctx.chainId)|
  }

  predicate IdsAt(b: seq<byte>, offset: nat, ids: seq<Digest>) {
    && NumberAt(b, offset, |ids|) && |b| == offset + 8 + 32 * |ids|
    && forall i :: 0 <= i < |ids| ==> At(b, offset + 8 + 32 * i, ids[i])
  }

  predicate EntryAt(b: seq<byte>, offset: nat, e: Entry) {
    NumberAt(b, offset, e.height) && NumberAt(b, offset + 8, e.slot) && At(b, offset + 16, e.hash)
  }

  predicate EntriesAt(b: seq<byte>, offset: nat, entries: seq<Entry>) {
    && NumberAt(b, offset, |entries|) && |b| == offset + 8 + 48 * |entries|
    && forall i :: 0 <= i < |entries| ==> EntryAt(b, offset + 8 + 48 * i, entries[i])
  }

  // ---- pieces ----

  lemma AtHead(a: seq<byte>, b: seq<byte>)
    ensures At(a + b, 0, a)
  {
  }

  lemma AtTail(a: seq<byte>, b: seq<byte>, offset: nat, part: seq<byte>)
    requires At(b, offset, part)
    ensures At(a + b, |a| + offset, part)
  {
    assert (a + b)[|a| + offset..|a| + offset + |part|] == b[offset..offset + |part|];
  }

  lemma {:induction false} WordTail(a: seq<byte>, b: seq<byte>, offset: nat, width: nat)
    requires offset + width <= |b|
    ensures Word(a + b, |a| + offset, width) == Word(b, offset, width)
  {
    if width > 0 {
      WordTail(a, b, offset, width - 1);
    }
  }

  lemma {:induction false} WordHead(a: seq<byte>, b: seq<byte>, offset: nat, width: nat)
    requires offset + width <= |a|
    ensures Word(a + b, offset, width) == Word(a, offset, width)
  {
    if width > 0 {
      WordHead(a, b, offset, width - 1);
    }
  }

  /** A number below 256 to the power `width` is written in that many bytes, the most significant first. */
  lemma {:induction false} WrittenWord(n: nat, width: nat)
    requires n < Range(width)
    ensures Word(BigEndian(n, width), 0, width) == n
  {
    if width > 0 {
      WrittenWord(n / 256, width - 1);
      WordHead(BigEndian(n / 256, width - 1), [n % 256], 0, width - 1);
    }
  }

  lemma NumberHead(n: nat, b: seq<byte>)
    requires FitsU64(n)
    ensures NumberAt(U64(n) + b, 0, n)
  {
    WrittenWord(n, 8);
    WordHead(U64(n), b, 0, 8);
  }

  lemma NumberTail(a: seq<byte>, b: seq<byte>, offset: nat, n: nat)
    requires NumberAt(b, offset, n)
    ensures NumberAt(a + b, |a| + offset, n)
  {
    WordTail(a, b, offset, 8);
  }

  lemma TextHead(text: string, b: seq<byte>)
    requires forall i :: 0 <= i < |text| ==> text[i] as int < 128
    ensures TextAt(Ascii(text) + b, 0, text)
  {
  }

  // ---- the parts behind the domain ----

  lemma BytesPiece(front: seq<byte>, part: seq<byte>, rest: seq<byte>)
    ensures At(front + (part + rest), |front|, part)
    ensures front + (part + rest) == (front + part) + rest
  {
    AtHead(part, rest);
    AtTail(front, part + rest, 0, part);
  }

  lemma NumberPiece(front: seq<byte>, n: nat, rest: seq<byte>)
    requires FitsU64(n)
    ensures NumberAt(front + (U64(n) + rest), |front|, n)
    ensures front + (U64(n) + rest) == (front + U64(n)) + rest
  {
    NumberHead(n, rest);
    NumberTail(front, U64(n) + rest, 0, n);
  }

  lemma ContextHead(ctx: Context, b: seq<byte>)
    requires FramedContext(ctx)
    ensures ContextAt(CtxBytes(ctx) + b, 0, ctx)
    ensures |CtxBytes(ctx)| == AfterContext(0, ctx)
  {
    var id := Utf8.Encode(ctx.chainId);
    var size := U16(|id|);
    var r1 := U64(ctx.slotId) + (U64(ctx.epoch) + b);
    assert CtxBytes(ctx) + b == size + (id + r1);
    WrittenWord(|id|, 2);
    WordHead(size, id + r1, 0, 2);
    BytesPiece(size, id, r1);
    NumberPiece(size + id, ctx.slotId, U64(ctx.epoch) + b);
    NumberPiece(size + id + U64(ctx.slotId), ctx.epoch, b);
  }

  lemma ContextTail(a: seq<byte>, b: seq<byte>, ctx: Context)
    requires ContextAt(b, 0, ctx)
    ensures ContextAt(a + b, |a|, ctx)
  {
    var id := Utf8.Encode(ctx.chainId);
    WordTail(a, b, 0, 2);
    AtTail(a, b, 2, id);
    NumberTail(a, b, 2 + |id|, ctx.slotId);
    NumberTail(a, b, 10 + |id|, ctx.epoch);
  }

  lemma {:induction false} DigestsAt(ids: seq<Digest>)
    ensures |Digests(ids)| == 32 * |ids|
    ensures forall i :: 0 <= i < |ids| ==> At(Digests(ids), 32 * i, ids[i])
  {
    if ids != [] {
      DigestsAt(ids[1..]);
      AtHead(ids[0], Digests(ids[1..]));
      forall i | 0 < i < |ids|
        ensures At(Digests(ids), 32 * i, ids[i])
      {
        AtTail(ids[0], Digests(ids[1..]), 32 * (i - 1), ids[1..][i - 1]);
      }
    }
  }

  lemma LaterEntry(own: seq<byte>, rest: seq<byte>, entries: seq<Entry>, i: nat)
    requires 0 < i < |entries| && |own| == 48 && EntryAt(rest, 48 * (i - 1), entries[1..][i - 1])
    ensures EntryAt(own + rest, 48 * i, entries[i])
  {
    EntryTail(own, rest, 48 * (i - 1), entries[1..][i - 1]);
    assert 48 + 48 * (i - 1) == 48 * i && entries[1..][i - 1] == entries[i];
  }

  lemma {:induction false} EntryListAt(entries: seq<Entry>)
    requires FramedEntries(entries)
    ensures |Entries(entries)| == 48 * |entries|
    ensures forall i :: 0 <= i < |entries| ==> EntryAt(Entries(entries), 48 * i, entries[i])
  {
    if entries != [] {
      var e, rest := entries[0], Entries(entries[1..]);
      EntryListAt(entries[1..]);
      var own := U64(e.height) + (U64(e.slot) + e.hash);
      assert Entries(entries) == own + rest;
      FirstEntry(e, rest);
      assert |own| == 48;
      forall i | 0 <= i < |entries|
        ensures EntryAt(own + rest, 48 * i, entries[i])
      {
        if i > 0 {
          LaterEntry(own, rest, entries, i);
        }
      }
    }
  }

  lemma FirstEntry(e: Entry, rest: seq<byte>)
    requires FitsU64(e.height) && FitsU64(e.slot)
    ensures EntryAt(U64(e.height) + (U64(e.slot) + e.hash) + rest, 0, e)
  {
    var r2 := e.hash + rest;
    var r1 := U64(e.slot) + r2;
    assert U64(e.height) + (U64(e.slot) + e.hash) + rest == U64(e.height) + r1;
    NumberHead(e.height, r1);
    NumberHead(e.slot, r2);
    NumberTail(U64(e.height), r1, 0, e.slot);
    AtHead(e.hash, rest);
    AtTail(U64(e.slot), r2, 0, e.hash);
    AtTail(U64(e.height), r1, 8, e.hash);
  }

  lemma EntryTail(a: seq<byte>, b: seq<byte>, offset: nat, e: Entry)
    requires EntryAt(b, offset, e)
    ensures EntryAt(a + b, |a| + offset, e)
  {
    NumberTail(a, b, offset, e.height);
    NumberTail(a, b, offset + 8, e.slot);
    AtTail(a, b, offset + 16, e.hash);
  }

  /** A list keeps its layout behind other bytes. */
  lemma IdsTail(a: seq<byte>, list: seq<byte>, ids: seq<Digest>)
    requires IdsAt(list, 0, ids)
    ensures IdsAt(a + list, |a|, ids)
  {
    NumberTail(a, list, 0, |ids|);
    forall i | 0 <= i < |ids|
      ensures At(a + list, |a| + 8 + 32 * i, ids[i])
    {
      AtTail(a, list, 8 + 32 * i, ids[i]);
    }
  }

  lemma IdsHead(count: seq<byte>, rest: seq<byte>, ids: seq<Digest>)
    requires |count| == 8 && NumberAt(count + rest, 0, |ids|) && |rest| == 32 * |ids|
    requires forall i :: 0 <= i < |ids| ==> At(rest, 32 * i, ids[i])
    ensures IdsAt(count + rest, 0, ids)
  {
    forall i | 0 <= i < |ids|
      ensures At(count + rest, 8 + 32 * i, ids[i])
    {
      AtTail(count, rest, 32 * i, ids[i]);
    }
  }

  lemma IdListAt(a: seq<byte>, ids: seq<Digest>)
    requires FitsU64(|ids|)
    ensures IdsAt(a + (U64(|ids|) + Digests(ids)), |a|, ids)
  {
    NumberHead(|ids|, Digests(ids));
    DigestsAt(ids);
    IdsHead(U64(|ids|), Digests(ids), ids);
    IdsTail(a, U64(|ids|) + Digests(ids), ids);
  }

  lemma EntriesTail(a: seq<byte>, list: seq<byte>, entries: seq<Entry>)
    requires EntriesAt(list, 0, entries)
    ensures EntriesAt(a + list, |a|, entries)
  {
    NumberTail(a, list, 0, |entries|);
    forall i | 0 <= i < |entries|
      ensures EntryAt(a + list, |a| + 8 + 48 * i, entries[i])
    {
      EntryTail(a, list, 8 + 48 * i, entries[i]);
    }
  }

  lemma EntriesHead(count: seq<byte>, rest: seq<byte>, entries: seq<Entry>)
    requires |count| == 8 && NumberAt(count + rest, 0, |entries|) && |rest| == 48 * |entries|
    requires forall i :: 0 <= i < |entries| ==> EntryAt(rest, 48 * i, entries[i])
    ensures EntriesAt(count + rest, 0, entries)
  {
    forall i | 0 <= i < |entries|
      ensures EntryAt(count + rest, 8 + 48 * i, entries[i])
    {
      EntryTail(count, rest, 48 * i, entries[i]);
    }
  }

  lemma EntriesListAt(a: seq<byte>, entries: seq<Entry>)
    requires FitsU64(|entries|) && FramedEntries(entries)
    ensures EntriesAt(a + (U64(|entries|) + Entries(entries)), |a|, entries)
  {
    NumberHead(|entries|, Entries(entries));
    EntryListAt(entries);
    EntriesHead(U64(|entries|), Entries(entries), entries);
    EntriesTail(a, U64(|entries|) + Entries(entries), entries);
  }

  // ---- the five byte strings ----

  predicate IsAscii(text: string) {
    forall i :: 0 <= i < |text| ==> text[i] as int < 128
  }

  /** A domain and a context in front of anything. */
  lemma Front(domain: string, ctx: Context, rest: seq<byte>)
    requires IsAscii(domain) && FramedContext(ctx)
    ensures var b := Ascii(domain) + (CtxBytes(ctx) + rest);
            TextAt(b, 0, domain) && ContextAt(b, |domain|, ctx)
    ensures Ascii(domain) + (CtxBytes(ctx) + rest) == (Ascii(domain) + CtxBytes(ctx)) + rest
    ensures |Ascii(domain) + CtxBytes(ctx)| == AfterContext(|domain|, ctx)
  {
    TextHead(domain, CtxBytes(ctx) + rest);
    ContextHead(ctx, rest);
    ContextTail(Ascii(domain), CtxBytes(ctx) + rest, ctx);
  }

  /** A list of ids behind a domain and a context. */
  lemma ListLayout(domain: string, ctx: Context, ids: seq<Digest>)
    requires IsAscii(domain) && FramedContext(ctx) && FitsU64(|ids|)
    ensures var b := Ascii(domain) + (CtxBytes(ctx) + (U64(|ids|) + Digests(ids)));
            TextAt(b, 0, domain) && ContextAt(b, |domain|, ctx) && IdsAt(b, AfterContext(|domain|, ctx), ids)
  {
    Front(domain, ctx, U64(|ids|) + Digests(ids));
    IdListAt(Ascii(domain) + CtxBytes(ctx), ids);
  }

  lemma CandidateSetDomain()
    ensures IsAscii("TWILIGHT/TOKENDROP/CANDIDATE-SET/V1") && |"TWILIGHT/TOKENDROP/CANDIDATE-SET/V1"| == 35
  {
  }

  /** A candidate list: its domain, the context, the number of ids in eight bytes, and the ids. */
  lemma CandidateSetLayout(ctx: Context, ids: seq<Digest>)
    requires Framed(CandidateSet(ctx, ids))
    ensures var b := Encode(CandidateSet(ctx, ids));
            && TextAt(b, 0, "TWILIGHT/TOKENDROP/CANDIDATE-SET/V1") && ContextAt(b, 35, ctx)
            && IdsAt(b, AfterContext(35, ctx), ids)
  {
    CandidateSetDomain();
    ListLayout("TWILIGHT/TOKENDROP/CANDIDATE-SET/V1", ctx, ids);
  }

  lemma SelectedDomain()
    ensures DOMAIN_SELECTED == Ascii("TWILIGHT/PARTICIPANT-SELECTION" + "/SELECTED-DRAW-IDS/V1")
    ensures IsAscii("TWILIGHT/PARTICIPANT-SELECTION") && IsAscii("/SELECTED-DRAW-IDS/V1")
    ensures |"TWILIGHT/PARTICIPANT-SELECTION"| == 30 && |"/SELECTED-DRAW-IDS/V1"| == 21
  {
  }

  /** The selected winners have the same layout behind their own domain. */
  lemma SelectedLayout(ctx: Context, winners: seq<Digest>)
    requires Framed(Selected(ctx, winners))
    ensures var b := Encode(Selected(ctx, winners));
            && TextAt(b, 0, "TWILIGHT/PARTICIPANT-SELECTION" + "/SELECTED-DRAW-IDS/V1") && ContextAt(b, 51, ctx)
            && IdsAt(b, AfterContext(51, ctx), winners)
  {
    SelectedDomain();
    ListLayout("TWILIGHT/PARTICIPANT-SELECTION" + "/SELECTED-DRAW-IDS/V1", ctx, winners);
  }

  lemma TicketDomain()
    ensures IsAscii("TWILIGHT/TOKENDROP/TICKET/V1") && |"TWILIGHT/TOKENDROP/TICKET/V1"| == 28
  {
  }

  lemma TicketParts(front: seq<byte>, setHash: Digest, beaconHash: Digest, id: Digest)
    ensures var b := front + (setHash + (beaconHash + id));
            && At(b, |front|, setHash) && At(b, |front| + 32, beaconHash) && At(b, |front| + 64, id)
            && |b| == |front| + 96
  {
    BytesPiece(front, setHash, beaconHash + id);
    BytesPiece(front + setHash, beaconHash, id);
    AtHead(id, []);
    AtTail(front + setHash + beaconHash, id, 0, id);
  }

  /** A ticket: its domain, the context, the set digest, the beacon digest and the id. */
  lemma TicketLayout(ctx: Context, setHash: Digest, beaconHash: Digest, id: Digest)
    requires Framed(Ticket(ctx, setHash, beaconHash, id))
    ensures var b := Encode(Ticket(ctx, setHash, beaconHash, id)); var o := AfterContext(28, ctx);
            && TextAt(b, 0, "TWILIGHT/TOKENDROP/TICKET/V1") && ContextAt(b, 28, ctx)
            && At(b, o, setHash) && At(b, o + 32, beaconHash) && At(b, o + 64, id) && |b| == o + 96
  {
    TicketDomain();
    Front("TWILIGHT/TOKENDROP/TICKET/V1", ctx, setHash + (beaconHash + id));
    TicketParts(Ascii("TWILIGHT/TOKENDROP/TICKET/V1") + CtxBytes(ctx), setHash, beaconHash, id);
  }

  lemma BeaconDomain()
    ensures IsAscii("TWILIGHT/TOKENDROP/BEACON/V1") && |"TWILIGHT/TOKENDROP/BEACON/V1"| == 28
  {
  }

  lemma BeaconParts(front: seq<byte>, setHash: Digest, start: nat, end: nat, entries: seq<Entry>)
    requires FitsU64(start) && FitsU64(end) && FitsU64(|entries|) && FramedEntries(entries)
    ensures var b := front + (setHash + (U64(start) + (U64(end) + (U64(|entries|) + Entries(entries)))));
            && At(b, |front|, setHash) && NumberAt(b, |front| + 32, start) && NumberAt(b, |front| + 40, end)
            && EntriesAt(b, |front| + 48, entries)
  {
    var list := U64(|entries|) + Entries(entries);
    BytesPiece(front, setHash, U64(start) + (U64(end) + list));
    NumberPiece(front + setHash, start, U64(end) + list);
    NumberPiece(front + setHash + U64(start), end, list);
    EntriesListAt(front + setHash + U64(start) + U64(end), entries);
  }

  /** A beacon: its domain, the context, the set digest, first and last height, and the blocks of other slots, each with
      height, slot and hash. */
  lemma BeaconLayout(ctx: Context, setHash: Digest, start: nat, end: nat, entries: seq<Entry>)
    requires Framed(Beacon(ctx, setHash, start, end, entries))
    ensures var b := Encode(Beacon(ctx, setHash, start, end, entries)); var o := AfterContext(28, ctx);
            && TextAt(b, 0, "TWILIGHT/TOKENDROP/BEACON/V1") && ContextAt(b, 28, ctx)
            && At(b, o, setHash) && NumberAt(b, o + 32, start) && NumberAt(b, o + 40, end)
            && EntriesAt(b, o + 48, entries)
  {
    BeaconDomain();
    Front("TWILIGHT/TOKENDROP/BEACON/V1", ctx,
          setHash + (U64(start) + (U64(end) + (U64(|entries|) + Entries(entries)))));
    BeaconParts(Ascii("TWILIGHT/TOKENDROP/BEACON/V1") + CtxBytes(ctx), setHash, start, end, entries);
  }

  // ---- the parameters ----

  /** A field: the length of its text in four bytes, then its characters. */
  predicate FieldAt(b: seq<byte>, offset: nat, text: string) {
    offset + 4 <= |b| && Word(b, offset, 4) == |text| && TextAt(b, offset + 4, text)
  }

  /** The fields stand one behind the other and fill the bytes; `at` says where each begins, and where the last ends. */
  ghost predicate FieldsAt(b: seq<byte>, texts: seq<string>, at: seq<nat>) {
    && |at| == |texts| + 1 && at[0] == 0 && at[|texts|] == |b|
    && forall i :: 0 <= i < |texts| ==> at[i + 1] == at[i] + 4 + |texts[i]| && FieldAt(b, at[i], texts[i])
  }

  lemma {:induction false} AsciiIsUtf8(text: string)
    requires IsAscii(text)
    ensures Utf8.Encode(text) == Ascii(text)
  {
    if text != "" {
      AsciiIsUtf8(text[1..]);
      assert Ascii(text) == [text[0] as int] + Ascii(text[1..]);
    }
  }

  lemma FieldHead(text: string, rest: seq<byte>)
    requires IsAscii(text) && |text| < Range(4)
    ensures |FieldBytes(text)| == 4 + |text| && FieldAt(FieldBytes(text) + rest, 0, text)
  {
    AsciiIsUtf8(text);
    var all := U32(|text|) + (Ascii(text) + rest);
    assert FieldBytes(text) + rest == all;
    WrittenWord(|text|, 4);
    WordHead(U32(|text|), Ascii(text) + rest, 0, 4);
    forall i | 0 <= i < |text|
      ensures all[4 + i] == text[i] as int
    {
      assert all[4 + i] == Ascii(text)[i];
    }
  }

  lemma FieldTail(a: seq<byte>, b: seq<byte>, offset: nat, text: string)
    requires FieldAt(b, offset, text)
    ensures FieldAt(a + b, |a| + offset, text)
  {
    WordTail(a, b, offset, 4);
    forall i | 0 <= i < |text|
      ensures (a + b)[|a| + offset + 4 + i] == text[i] as int
    {
      assert (a + b)[|a| + offset + 4 + i] == b[offset + 4 + i];
    }
  }

  lemma LaterField(first: seq<byte>, rest: seq<byte>, texts: seq<string>, later: seq<nat>, i: nat)
    requires 0 < i < |texts| && FieldsAt(rest, texts[1..], later)
    ensures later[i] == later[i - 1] + 4 + |texts[i]| && FieldAt(first + rest, |first| + later[i - 1], texts[i])
  {
    assert texts[1..][i - 1] == texts[i];
    FieldTail(first, rest, later[i - 1], texts[i]);
  }

  /** Fields behind a first one. */
  lemma FieldsBehind(first: seq<byte>, rest: seq<byte>, texts: seq<string>, later: seq<nat>) returns (at: seq<nat>)
    requires texts != [] && |first| == 4 + |texts[0]|
    requires FieldAt(first + rest, 0, texts[0]) && FieldsAt(rest, texts[1..], later)
    ensures FieldsAt(first + rest, texts, at)
  {
    at := [0] + seq(|later|, i requires 0 <= i < |later| => |first| + later[i]);
    forall i | 0 <= i < |texts|
      ensures at[i + 1] == at[i] + 4 + |texts[i]| && FieldAt(first + rest, at[i], texts[i])
    {
      if i > 0 {
        LaterField(first, rest, texts, later, i);
      }
    }
  }

  lemma {:induction false} FieldsLayout(texts: seq<string>) returns (at: seq<nat>)
    requires forall i :: 0 <= i < |texts| ==> IsAscii(texts[i]) && |texts[i]| < Range(4)
    ensures FieldsAt(Fields(texts), texts, at)
  {
    if texts == [] {
      at := [0];
    } else {
      var first, rest := FieldBytes(texts[0]), Fields(texts[1..]);
      FieldHead(texts[0], rest);
      var later := FieldsLayout(texts[1..]);
      at := FieldsBehind(first, rest, texts, later);
    }
  }

  /** The text of each parameter field: a version tag, the twelve numbers in order, and whether the target slot is
      excluded. */
  function FieldText(values: seq<nat>, exclude: bool, i: nat): string
    requires |values| == 12 && i < 14
  {
    if i == 0 then "TWILIGHT_MINIS_DRAW_PARAMETERS_HASH_V1"
    else if i <= 12 then Decimal.ToDecimal(values[i - 1])
    else if exclude then "1"
    else "0"
  }

  function FieldTexts(values: seq<nat>, exclude: bool): seq<string>
    requires |values| == 12
  {
    seq(14, i requires 0 <= i < 14 => FieldText(values, exclude, i))
  }

  lemma TagIsAscii()
    ensures IsAscii("TWILIGHT_MINIS_DRAW_PARAMETERS_HASH_V1") && |"TWILIGHT_MINIS_DRAW_PARAMETERS_HASH_V1"| == 38
  {
  }

  lemma FieldTextFits(values: seq<nat>, exclude: bool, i: nat)
    requires Framed(Params(values, exclude)) && i < 14
    ensures var text := FieldText(values, exclude, i); IsAscii(text) && |text| < Range(4)
  {
    TagIsAscii();
    assert Range(2) == 65536;
    if 1 <= i <= 12 {
      Decimal.DecimalLength(values[i - 1], MAX_UINT_DIGITS);
    }
  }

  /** Parameters: fourteen fields, one behind the other, and nothing else. */
  lemma ParametersLayout(values: seq<nat>, exclude: bool) returns (at: seq<nat>)
    requires Framed(Params(values, exclude))
    ensures FieldsAt(Encode(Params(values, exclude)), FieldTexts(values, exclude), at)
  {
    var texts := FieldTexts(values, exclude);
    forall i | 0 <= i < 14
      ensures IsAscii(texts[i]) && |texts[i]| < Range(4)
    {
      FieldTextFits(values, exclude, i);
    }
    assert texts == ParamTexts(values, exclude);
    at := FieldsLayout(texts);
  }
}
