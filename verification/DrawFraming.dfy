/** The byte strings that are hashed for a selection draw, and the proof that they parse back: no two
    inputs, of one kind or of two, share a byte string. */
module DrawFraming {
  import opened Wrappers
  import opened Bytes
  import opened Decimal
  import opened Hex
  import Utf8

  /** The low byte of every character, as `Buffer` writes ASCII text. */
  function Ascii(s: string): (b: seq<byte>)
    ensures |b| == |s|
  {
    seq(|s|, i requires 0 <= i < |s| => s[i] as int % 256)
  }

  const DOMAIN_CANDIDATE_SET := Ascii("TWILIGHT/TOKENDROP/CANDIDATE-SET/V1")
  const DOMAIN_BEACON := Ascii("TWILIGHT/TOKENDROP/BEACON/V1")
  const DOMAIN_TICKET := Ascii("TWILIGHT/TOKENDROP/TICKET/V1")
  const DOMAIN_SELECTED := Ascii("TWILIGHT/PARTICIPANT-SELECTION") + Ascii("/SELECTED-DRAW-IDS/V1")
  const PARAMS_VERSION_TAG := "TWILIGHT_MINIS_DRAW_PARAMETERS_HASH_V1"

  /** Every number of the parameters stays below 10^12. */
  const MAX_UINT_DIGITS: nat := 12

  datatype Context = Context(chainId: string, slotId: nat, epoch: nat)

  /** A block of the beacon window: its height, proposing slot and block-id hash. */
  datatype Entry = Entry(height: nat, slot: nat, hash: Digest)

  /** What is hashed; `values` are the parameters in their fixed field order. */
  datatype Preimage =
    | CandidateSet(ctx: Context, ids: seq<Digest>)
    | Beacon(ctx: Context, setHash: Digest, start: nat, end: nat, entries: seq<Entry>)
    | Ticket(ctx: Context, setHash: Digest, beaconHash: Digest, drawId: Digest)
    | Selected(ctx: Context, winners: seq<Digest>)
    | Params(values: seq<nat>, exclude: bool)

  const FIELD_COUNT: nat := 12

  // ---- writing ----

  function U16(n: nat): seq<byte> { BigEndian(n, 2) }

  function U32(n: nat): seq<byte> { BigEndian(n, 4) }

  function U64(n: nat): seq<byte> { BigEndian(n, 8) }

  function CtxBytes(c: Context): seq<byte> {
    var cid := Utf8.Encode(c.chainId);
    U16(|cid|) + (cid + (U64(c.slotId) + U64(c.epoch)))
  }

  function Digests(ds: seq<Digest>): seq<byte> {
    if ds == [] then [] else ds[0] + Digests(ds[1..])
  }

  function Entries(es: seq<Entry>): seq<byte> {
    if es == [] then [] else U64(es[0].height) + (U64(es[0].slot) + (es[0].hash + Entries(es[1..])))
  }

  /** One field of the parameters: its length, then its text. */
  function FieldBytes(text: string): seq<byte> {
    var b := Utf8.Encode(text);
    U32(|b|) + b
  }

  function Fields(texts: seq<string>): seq<byte> {
    if texts == [] then [] else FieldBytes(texts[0]) + Fields(texts[1..])
  }

  function Decimals(values: seq<nat>): (texts: seq<string>)
    ensures |texts| == |values|
  {
    seq(|values|, i requires 0 <= i < |values| => ToDecimal(values[i]))
  }

  function ParamTexts(values: seq<nat>, exclude: bool): seq<string> {
    [PARAMS_VERSION_TAG] + Decimals(values) + [if exclude then "1" else "0"]
  }

  function Encode(p: Preimage): seq<byte> {
    match p
    case CandidateSet(ctx, ids) => DOMAIN_CANDIDATE_SET + (CtxBytes(ctx) + (U64(|ids|) + Digests(ids)))
    case Beacon(ctx, setHash, start, end, entries) =>
      DOMAIN_BEACON + (CtxBytes(ctx) + (setHash + (U64(start) + (U64(end) + (U64(|entries|) + Entries(entries))))))
    case Ticket(ctx, setHash, beaconHash, drawId) =>
      DOMAIN_TICKET + (CtxBytes(ctx) + (setHash + (beaconHash + drawId)))
    case Selected(ctx, winners) => DOMAIN_SELECTED + (CtxBytes(ctx) + (U64(|winners|) + Digests(winners)))
    case Params(values, exclude) => Fields(ParamTexts(values, exclude))
  }

  // ---- where the writers do not throw ----

  predicate FitsU64(n: nat) {
    n < Range(8)
  }

  predicate FramedContext(c: Context) {
    |Utf8.Encode(c.chainId)| < Range(2) && FitsU64(c.slotId) && FitsU64(c.epoch)
  }

  predicate FramedEntries(es: seq<Entry>) {
    forall i :: 0 <= i < |es| ==> FitsU64(es[i].height) && FitsU64(es[i].slot)
  }

  predicate Framed(p: Preimage) {
    match p
    case CandidateSet(ctx, ids) => FramedContext(ctx) && FitsU64(|ids|)
    case Beacon(ctx, _, start, end, entries) =>
      FramedContext(ctx) && FitsU64(start) && FitsU64(end) && FitsU64(|entries|) && FramedEntries(entries)
    case Ticket(ctx, _, _, _) => FramedContext(ctx)
    case Selected(ctx, winners) => FramedContext(ctx) && FitsU64(|winners|)
    case Params(values, _) =>
      |values| == FIELD_COUNT && forall i :: 0 <= i < |values| ==> values[i] < PowerOfTen(MAX_UINT_DIGITS)
  }

  // ---- reading ----

  datatype Read<+T> = Read(value: T, rest: seq<byte>) | Short

  function ReadBytes(b: seq<byte>, n: nat): Read<seq<byte>> {
    if |b| < n then Short else Read(b[..n], b[n..])
  }

  function ReadNumber(b: seq<byte>, width: nat): Read<nat> {
    if |b| < width then Short else Read(Number(b[..width]), b[width..])
  }

  function ReadDigest(b: seq<byte>): Read<Digest> {
    if |b| < 32 then Short else Read(b[..32], b[32..])
  }

  function ReadDigests(b: seq<byte>, n: nat): Read<seq<Digest>> {
    if n == 0 then Read([], b)
    else
      match ReadDigest(b)
      case Short => Short
      case Read(d, r) =>
        match ReadDigests(r, n - 1)
        case Short => Short
        case Read(ds, r2) => Read([d] + ds, r2)
  }

  function ReadEntry(b: seq<byte>): Read<Entry> {
    match ReadNumber(b, 8)
    case Short => Short
    case Read(height, r) =>
      match ReadNumber(r, 8)
      case Short => Short
      case Read(slot, r2) =>
        match ReadDigest(r2)
        case Short => Short
        case Read(hash, r3) => Read(Entry(height, slot, hash), r3)
  }

  function ReadEntries(b: seq<byte>, n: nat): Read<seq<Entry>> {
    if n == 0 then Read([], b)
    else
      match ReadEntry(b)
      case Short => Short
      case Read(e, r) =>
        match ReadEntries(r, n - 1)
        case Short => Short
        case Read(es, r2) => Read([e] + es, r2)
  }

  function ReadContext(b: seq<byte>): Read<Context> {
    match ReadNumber(b, 2)
    case Short => Short
    case Read(n, r) =>
      match ReadBytes(r, n)
      case Short => Short
      case Read(cid, r2) =>
        match ReadNumber(r2, 8)
        case Short => Short
        case Read(slotId, r3) =>
          match ReadNumber(r3, 8)
          case Short => Short
          case Read(epoch, r4) => Read(Context(Utf8.Decode(cid), slotId, epoch), r4)
  }

  function ReadFields(b: seq<byte>, n: nat): Read<seq<string>> {
    if n == 0 then Read([], b)
    else
      match ReadNumber(b, 4)
      case Short => Short
      case Read(size, r) =>
        match ReadBytes(r, size)
        case Short => Short
        case Read(text, r2) =>
          match ReadFields(r2, n - 1)
          case Short => Short
          case Read(texts, r3) => Read([Utf8.Decode(text)] + texts, r3)
  }

  predicate StartsWith(b: seq<byte>, prefix: seq<byte>) {
    |prefix| <= |b| && b[..|prefix|] == prefix
  }

  /** The digest list at the end of a candidate-set or selected-ids string. */
  function DecodeIds(b: seq<byte>): Option<(Context, seq<Digest>)> {
    match ReadContext(b)
    case Short => None
    case Read(ctx, r) =>
      match ReadNumber(r, 8)
      case Short => None
      case Read(n, r2) =>
        match ReadDigests(r2, n)
        case Short => None
        case Read(ids, r3) => if r3 == [] then Some((ctx, ids)) else None
  }

  function DecodeBeacon(b: seq<byte>): Option<Preimage> {
    match ReadContext(b)
    case Short => None
    case Read(ctx, r) =>
      match ReadDigest(r)
      case Short => None
      case Read(setHash, r2) =>
        match ReadNumber(r2, 8)
        case Short => None
        case Read(start, r3) =>
          match ReadNumber(r3, 8)
          case Short => None
          case Read(end, r4) =>
            match ReadNumber(r4, 8)
            case Short => None
            case Read(n, r5) =>
              match ReadEntries(r5, n)
              case Short => None
              case Read(entries, r6) =>
                if r6 == [] then Some(Beacon(ctx, setHash, start, end, entries)) else None
  }

  function DecodeTicket(b: seq<byte>): Option<Preimage> {
    match ReadContext(b)
    case Short => None
    case Read(ctx, r) =>
      match ReadDigests(r, 3)
      case Short => None
      case Read(ds, r2) =>
        if |ds| == 3 && r2 == [] then Some(Ticket(ctx, ds[0], ds[1], ds[2])) else None
  }

  function Numbers(texts: seq<string>): seq<nat>
    requires forall i :: 0 <= i < |texts| ==> AllDigits(texts[i])
  {
    seq(|texts|, i requires 0 <= i < |texts| => Value(texts[i]))
  }

  /** The version tag, the decimal values and the exclusion flag. */
  function ParseTexts(texts: seq<string>, count: nat): Option<Preimage> {
    if |texts| != count + 2 || texts[0] != PARAMS_VERSION_TAG then None
    else
      var values := texts[1..count + 1];
      if forall i :: 0 <= i < |values| ==> AllDigits(values[i]) then
        Some(Params(Numbers(values), texts[count + 1] == "1"))
      else None
  }

  function DecodeParams(b: seq<byte>, count: nat): Option<Preimage> {
    match ReadFields(b, count + 2)
    case Short => None
    case Read(texts, r) => if r == [] then ParseTexts(texts, count) else None
  }

  function Decode(b: seq<byte>): Option<Preimage> {
    if StartsWith(b, DOMAIN_CANDIDATE_SET) then
      match DecodeIds(b[|DOMAIN_CANDIDATE_SET|..])
      case None => None
      case Some(ids) => Some(CandidateSet(ids.0, ids.1))
    else if StartsWith(b, DOMAIN_BEACON) then DecodeBeacon(b[|DOMAIN_BEACON|..])
    else if StartsWith(b, DOMAIN_TICKET) then DecodeTicket(b[|DOMAIN_TICKET|..])
    else if StartsWith(b, DOMAIN_SELECTED) then
      match DecodeIds(b[|DOMAIN_SELECTED|..])
      case None => None
      case Some(ids) => Some(Selected(ids.0, ids.1))
    else DecodeParams(b, FIELD_COUNT)
  }

  // ---- each part is read back ----

  lemma ReadsNumber(n: nat, width: nat, rest: seq<byte>)
    requires n < Range(width)
    ensures ReadNumber(BigEndian(n, width) + rest, width) == Read(n, rest)
  {
    NumberOfBigEndian(n, width);
    var b := BigEndian(n, width) + rest;
    assert b[..width] == BigEndian(n, width) && b[width..] == rest;
  }

  lemma ReadsBytes(x: seq<byte>, rest: seq<byte>)
    ensures ReadBytes(x + rest, |x|) == Read(x, rest)
  {
    assert (x + rest)[..|x|] == x && (x + rest)[|x|..] == rest;
  }

  lemma ReadsDigest(d: Digest, rest: seq<byte>)
    ensures ReadDigest(d + rest) == Read(d, rest)
  {
    assert (d + rest)[..32] == d && (d + rest)[32..] == rest;
  }

  lemma {:induction false} ReadsDigests(ds: seq<Digest>, rest: seq<byte>)
    ensures ReadDigests(Digests(ds) + rest, |ds|) == Read(ds, rest)
  {
    if ds == [] {
      assert Digests(ds) + rest == rest;
    } else {
      var tail := Digests(ds[1..]) + rest;
      assert Digests(ds) + rest == ds[0] + tail;
      ReadsDigest(ds[0], tail);
      ReadsDigests(ds[1..], rest);
      assert ds == [ds[0]] + ds[1..];
    }
  }

  lemma ReadsEntry(e: Entry, rest: seq<byte>)
    requires FitsU64(e.height) && FitsU64(e.slot)
    ensures ReadEntry(U64(e.height) + (U64(e.slot) + (e.hash + rest))) == Read(e, rest)
  {
    ReadsNumber(e.height, 8, U64(e.slot) + (e.hash + rest));
    ReadsNumber(e.slot, 8, e.hash + rest);
    ReadsDigest(e.hash, rest);
  }

  lemma {:induction false} ReadsEntries(es: seq<Entry>, rest: seq<byte>)
    requires FramedEntries(es)
    ensures ReadEntries(Entries(es) + rest, |es|) == Read(es, rest)
  {
    if es == [] {
      assert Entries(es) + rest == rest;
    } else {
      var e, tail := es[0], Entries(es[1..]) + rest;
      assert Entries(es) + rest == U64(e.height) + (U64(e.slot) + (e.hash + tail));
      ReadsEntry(e, tail);
      ReadsEntries(es[1..], rest);
      assert es == [e] + es[1..];
    }
  }

  lemma ReadsContext(c: Context, rest: seq<byte>)
    requires FramedContext(c)
    ensures ReadContext(CtxBytes(c) + rest) == Read(c, rest)
  {
    var cid := Utf8.Encode(c.chainId);
    var r3 := U64(c.epoch) + rest;
    var r2 := U64(c.slotId) + r3;
    var r := cid + r2;
    assert CtxBytes(c) + rest == U16(|cid|) + r;
    ReadsNumber(|cid|, 2, r);
    ReadsBytes(cid, r2);
    ReadsNumber(c.slotId, 8, r3);
    ReadsNumber(c.epoch, 8, rest);
    Utf8.DecodeOfEncode(c.chainId);
  }

  predicate FramedText(s: string) {
    |Utf8.Encode(s)| < Range(4)
  }

  lemma {:induction false} ReadsFields(texts: seq<string>, rest: seq<byte>)
    requires forall i :: 0 <= i < |texts| ==> FramedText(texts[i])
    ensures ReadFields(Fields(texts) + rest, |texts|) == Read(texts, rest)
  {
    if texts == [] {
      assert Fields(texts) + rest == rest;
    } else {
      var tail := Fields(texts[1..]) + rest;
      assert Fields(texts) + rest == FieldBytes(texts[0]) + tail;
      assert FramedText(texts[0]);
      ReadsFields(texts[1..], rest);
      ReadsField(texts, tail, Read(texts[1..], rest));
    }
  }

  /** The first field is read, and then the others. */
  lemma ReadsField(texts: seq<string>, tail: seq<byte>, others: Read<seq<string>>)
    requires texts != [] && FramedText(texts[0])
    requires others.Read? && ReadFields(tail, |texts| - 1) == others && others.value == texts[1..]
    ensures ReadFields(FieldBytes(texts[0]) + tail, |texts|) == Read(texts, others.rest)
  {
    var text := Utf8.Encode(texts[0]);
    assert FieldBytes(texts[0]) + tail == U32(|text|) + (text + tail);
    ReadsNumber(|text|, 4, text + tail);
    ReadsBytes(text, tail);
    Utf8.DecodeOfEncode(texts[0]);
    assert texts == [texts[0]] + texts[1..];
  }

  lemma {:induction false} EncodedLength(s: string)
    ensures |Utf8.Encode(s)| <= 4 * |s|
  {
    if s != "" {
      EncodedLength(s[1..]);
    }
  }

  lemma ReadsIds(ctx: Context, ids: seq<Digest>)
    requires FramedContext(ctx) && FitsU64(|ids|)
    ensures DecodeIds(CtxBytes(ctx) + (U64(|ids|) + Digests(ids))) == Some((ctx, ids))
  {
    ReadsContext(ctx, U64(|ids|) + Digests(ids));
    ReadsNumber(|ids|, 8, Digests(ids));
    ReadsDigests(ids, []);
    assert Digests(ids) + [] == Digests(ids);
  }

  lemma ReadsBeacon(p: Preimage)
    requires p.Beacon? && Framed(p)
    ensures DecodeBeacon(CtxBytes(p.ctx) + (p.setHash + (U64(p.start) + (U64(p.end)
                         + (U64(|p.entries|) + Entries(p.entries)))))) == Some(p)
  {
    var r5 := Entries(p.entries);
    var r4 := U64(|p.entries|) + r5;
    var r3 := U64(p.end) + r4;
    var r2 := U64(p.start) + r3;
    ReadsContext(p.ctx, p.setHash + r2);
    ReadsDigest(p.setHash, r2);
    ReadsNumber(p.start, 8, r3);
    ReadsNumber(p.end, 8, r4);
    ReadsNumber(|p.entries|, 8, r5);
    ReadsEntries(p.entries, []);
    assert r5 + [] == r5;
  }

  lemma ReadsTicket(p: Preimage)
    requires p.Ticket? && Framed(p)
    ensures DecodeTicket(CtxBytes(p.ctx) + (p.setHash + (p.beaconHash + p.drawId))) == Some(p)
  {
    var ds := [p.setHash, p.beaconHash, p.drawId];
    ReadsContext(p.ctx, p.setHash + (p.beaconHash + p.drawId));
    assert ds[1..] == [p.beaconHash, p.drawId] && ds[1..][1..] == [p.drawId] && ds[1..][1..][1..] == [];
    assert Digests([p.drawId]) == p.drawId + [];
    assert Digests(ds) + [] == p.setHash + (p.beaconHash + p.drawId);
    ReadsDigests(ds, []);
  }

  lemma ParamTextsFit(values: seq<nat>, exclude: bool)
    requires Framed(Params(values, exclude))
    ensures forall i :: 0 <= i < |ParamTexts(values, exclude)| ==> FramedText(ParamTexts(values, exclude)[i])
  {
    var texts := ParamTexts(values, exclude);
    forall i | 0 <= i < |texts|
      ensures FramedText(texts[i])
    {
      EncodedLength(texts[i]);
      if 1 <= i <= FIELD_COUNT {
        DecimalLength(values[i - 1], MAX_UINT_DIGITS);
      }
    }
  }

  lemma NumbersOfDecimals(values: seq<nat>)
    ensures forall i :: 0 <= i < |values| ==> AllDigits(Decimals(values)[i])
    ensures Numbers(Decimals(values)) == values
  {
    forall i | 0 <= i < |values|
      ensures Numbers(Decimals(values))[i] == values[i]
    {
      ValueOfDecimal(values[i]);
    }
  }

  lemma TextsParse(values: seq<nat>, exclude: bool)
    ensures ParseTexts(ParamTexts(values, exclude), |values|) == Some(Params(values, exclude))
  {
    NumbersOfDecimals(values);
    assert ParamTexts(values, exclude)[1..|values| + 1] == Decimals(values);
  }

  lemma ReadsParams(values: seq<nat>, exclude: bool, count: nat)
    requires |values| == count
    requires forall i :: 0 <= i < |ParamTexts(values, exclude)| ==> FramedText(ParamTexts(values, exclude)[i])
    ensures DecodeParams(Fields(ParamTexts(values, exclude)), count) == Some(Params(values, exclude))
  {
    var texts := ParamTexts(values, exclude);
    ReadsFields(texts, []);
    assert Fields(texts) + [] == Fields(texts);
    TextsParse(values, exclude);
  }

  // ---- the kinds are told apart ----

  lemma SameStart(b: seq<byte>, prefix: seq<byte>, i: nat)
    requires i < |prefix| && i < |b|
    ensures StartsWith(b, prefix) ==> b[i] == prefix[i]
  {
    if StartsWith(b, prefix) {
      assert b[..|prefix|][i] == b[i];
    }
  }

  /** A string that starts with one domain does not start with a domain that differs from it early on. */
  lemma StartsApart(domain: seq<byte>, rest: seq<byte>, other: seq<byte>, i: nat)
    requires i < |domain| && i < |other| && domain[i] != other[i]
    ensures StartsWith(domain + rest, domain) && (domain + rest)[|domain|..] == rest
    ensures !StartsWith(domain + rest, other)
  {
    assert (domain + rest)[i] == domain[i];
    SameStart(domain + rest, other, i);
  }

  lemma DomainsDiffer()
    ensures DOMAIN_CANDIDATE_SET[19] == 67 && DOMAIN_BEACON[19] == 66 && DOMAIN_TICKET[19] == 84
    ensures DOMAIN_CANDIDATE_SET[9] == 84 && DOMAIN_BEACON[9] == 84 && DOMAIN_TICKET[9] == 84
    ensures DOMAIN_SELECTED[9] == 80
    ensures DOMAIN_CANDIDATE_SET[0] == 84 && DOMAIN_BEACON[0] == 84
    ensures DOMAIN_TICKET[0] == 84 && DOMAIN_SELECTED[0] == 84
  {
  }

  /** A field of fewer than 256 bytes starts with a zero byte, the domains with a letter. */
  lemma FieldsStartApart(texts: seq<string>, domain: seq<byte>)
    requires texts != [] && |Utf8.Encode(texts[0])| < 256
    requires |domain| > 0 && domain[0] == 84
    ensures !StartsWith(Fields(texts), domain)
  {
    var size := |Utf8.Encode(texts[0])|;
    FirstByteIsZero(size);
    assert Fields(texts) == U32(size) + (Utf8.Encode(texts[0]) + Fields(texts[1..]));
    SameStart(Fields(texts), domain, 0);
  }

  lemma TagIsShort()
    ensures |Utf8.Encode(PARAMS_VERSION_TAG)| < 256
  {
    EncodedLength(PARAMS_VERSION_TAG);
    TagLength();
  }

  lemma TagLength()
    ensures |PARAMS_VERSION_TAG| == 38
  {
  }

  lemma FirstByteIsZero(n: nat)
    requires n < 256
    ensures U32(n)[0] == 0
  {
    assert U32(n) == BigEndian(n / 256, 3) + [n % 256];
    assert BigEndian(0, 3) == BigEndian(0, 2) + [0];
    assert BigEndian(0, 2) == BigEndian(0, 1) + [0];
    assert BigEndian(0, 1) == BigEndian(0, 0) + [0];
  }

  lemma ParamsReadBack(p: Preimage)
    requires p.Params? && Framed(p)
    ensures Decode(Encode(p)) == Some(p)
  {
    var texts := ParamTexts(p.values, p.exclude);
    DomainsDiffer();
    TagIsShort();
    FieldsStartApart(texts, DOMAIN_CANDIDATE_SET);
    FieldsStartApart(texts, DOMAIN_BEACON);
    FieldsStartApart(texts, DOMAIN_TICKET);
    FieldsStartApart(texts, DOMAIN_SELECTED);
    ParamTextsFit(p.values, p.exclude);
    ReadsParams(p.values, p.exclude, FIELD_COUNT);
  }

  lemma IdListsReadBack(p: Preimage)
    requires (p.CandidateSet? || p.Selected?) && Framed(p)
    ensures Decode(Encode(p)) == Some(p)
  {
    DomainsDiffer();
    if p.CandidateSet? {
      StartsApart(DOMAIN_CANDIDATE_SET, CtxBytes(p.ctx) + (U64(|p.ids|) + Digests(p.ids)), DOMAIN_BEACON, 19);
      ReadsIds(p.ctx, p.ids);
    } else {
      var rest := CtxBytes(p.ctx) + (U64(|p.winners|) + Digests(p.winners));
      StartsApart(DOMAIN_SELECTED, rest, DOMAIN_CANDIDATE_SET, 9);
      StartsApart(DOMAIN_SELECTED, rest, DOMAIN_BEACON, 9);
      StartsApart(DOMAIN_SELECTED, rest, DOMAIN_TICKET, 9);
      ReadsIds(p.ctx, p.winners);
    }
  }

  lemma BeaconsAndTicketsReadBack(p: Preimage)
    requires (p.Beacon? || p.Ticket?) && Framed(p)
    ensures Decode(Encode(p)) == Some(p)
  {
    DomainsDiffer();
    if p.Beacon? {
      StartsApart(DOMAIN_BEACON, Encode(p)[|DOMAIN_BEACON|..], DOMAIN_CANDIDATE_SET, 19);
      ReadsBeacon(p);
    } else {
      var rest := CtxBytes(p.ctx) + (p.setHash + (p.beaconHash + p.drawId));
      StartsApart(DOMAIN_TICKET, rest, DOMAIN_CANDIDATE_SET, 19);
      StartsApart(DOMAIN_TICKET, rest, DOMAIN_BEACON, 19);
      ReadsTicket(p);
    }
  }

  /** Every byte string that is hashed parses back to the input it was made from. */
  lemma DecodeOfEncode(p: Preimage)
    requires Framed(p)
    ensures Decode(Encode(p)) == Some(p)
  {
    match p {
      case CandidateSet(_, _) => IdListsReadBack(p);
      case Selected(_, _) => IdListsReadBack(p);
      case Beacon(_, _, _, _, _) => BeaconsAndTicketsReadBack(p);
      case Ticket(_, _, _, _) => BeaconsAndTicketsReadBack(p);
      case Params(_, _) => ParamsReadBack(p);
    }
  }

  /** Two inputs, of the same kind or of different kinds, never share a byte string. */
  lemma FramingIsInjective(p: Preimage, q: Preimage)
    requires Framed(p) && Framed(q) && Encode(p) == Encode(q)
    ensures p == q
  {
    DecodeOfEncode(p);
    DecodeOfEncode(q);
  }
}
