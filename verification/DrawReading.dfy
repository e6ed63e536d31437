/** The verifier reads the record and the chain as they are meant: each of its readings, against `DrawSpec`. */
module DrawReading {
  import opened Wrappers
  import opened Bytes
  import opened Decimal
  import opened Hex
  import opened Sorting
  import opened WinnerCount
  import opened DrawFraming
  import opened DrawRecord
  import opened DrawBeacon
  import opened DrawVerify
  import opened DrawSoundness
  import opened DrawSpec

  // ---- numbers ----

  lemma TwelveDigits(n: nat)
    ensures |ToDecimal(n)| <= 12 <==> n < 1000000000000
  {
    assert PowerOfTen(6) == 1000000;
    assert PowerOfTen(12) == 1000000000000;
    if n < 1000000000000 {
      DecimalLength(n, 12);
    } else if |ToDecimal(n)| <= 12 {
      ValueBelowPower(ToDecimal(n), 12);
      ValueOfDecimal(n);
    }
  }

  lemma TextIsBounded(s: string)
    requires AllDigits(s) && |s| <= 12
    ensures Decimal.Value(s) < 1000000000000
  {
    assert PowerOfTen(6) == 1000000;
    assert PowerOfTen(12) == 1000000000000;
    ValueBelowPower(s, 12);
  }

  /** The bounded numbers are those of at most twelve digits, in either form. */
  lemma NumberExactly(v: DrawRecord.Value, n: nat)
    ensures ToBounded(v) == Some(n) <==> IsNumber(v, n)
  {
    match v {
      case Num(x) =>
        if IsInteger(x) && 0.0 <= x <= MAX_SAFE_INTEGER {
          TwelveDigits(x.Floor);
          ValueOfDecimal(x.Floor);
        }
        assert (n as real).Floor == n;
      case Str(s) =>
        if AllDigits(s) && |s| <= 12 {
          TextIsBounded(s);
        }
      case _ =>
    }
  }

  lemma HasNumberExactly(v: DrawRecord.Value)
    ensures ToBounded(v).Some? <==> HasNumber(v)
  {
    if ToBounded(v).Some? {
      NumberExactly(v, ToBounded(v).value);
    }
    if n: nat :| IsNumber(v, n) {
      NumberExactly(v, n);
    }
  }

  lemma UnsignedExactly(v: DrawRecord.Value)
    ensures IsLargeUint(v) <==> IsUnsigned(v)
  {
  }

  // ---- hexadecimal text ----

  lemma DigitSpells(v: int)
    requires 0 <= v < 16
    ensures HexValue(Hex.Digit(v)) == v && !('A' <= Hex.Digit(v) <= 'F')
  {
  }

  lemma LowerKeepsValue(c: char)
    ensures HexValue(c) >= 0 ==> HexValue(LowerChar(c)) == HexValue(c) && !('A' <= LowerChar(c) <= 'F')
    ensures HexValue(c) < 0 ==> HexValue(LowerChar(c)) < 0
  {
  }

  lemma ValueIsInjective(c: char, d: char)
    requires HexValue(c) == HexValue(d) >= 0 && !('A' <= c <= 'F') && !('A' <= d <= 'F')
    ensures c == d
  {
  }

  lemma ToHexAt(d: Digest, i: nat)
    requires i < 32
    ensures HexValue(ToHex(d)[2 * i]) == d[i] / 16 && HexValue(ToHex(d)[2 * i + 1]) == d[i] % 16
    ensures !('A' <= ToHex(d)[2 * i] <= 'F') && !('A' <= ToHex(d)[2 * i + 1] <= 'F')
  {
    assert (2 * i) % 2 == 0 && (2 * i) / 2 == i && (2 * i + 1) % 2 == 1 && (2 * i + 1) / 2 == i;
    DigitSpells(d[i] / 16);
    DigitSpells(d[i] % 16);
  }

  lemma ToHexSpells(d: Digest)
    ensures SpellsLower(ToHex(d), d)
  {
    forall i | 0 <= i < 32
      ensures HexValue(ToHex(d)[2 * i]) == d[i] / 16 && HexValue(ToHex(d)[2 * i + 1]) == d[i] % 16
    {
      ToHexAt(d, i);
    }
    forall i | 0 <= i < 64
      ensures !('A' <= ToHex(d)[i] <= 'F')
    {
      ToHexAt(d, i / 2);
      assert i == 2 * (i / 2) || i == 2 * (i / 2) + 1;
    }
  }

  /** Two texts of a digest with the same digits are the same text. */
  lemma SpellingIsUnique(s: string, t: string, d: Digest)
    requires SpellsLower(s, d) && SpellsLower(t, d)
    ensures s == t
  {
    forall i | 0 <= i < 64
      ensures s[i] == t[i]
    {
      var k := i / 2;
      assert HexValue(s[2 * k]) == HexValue(t[2 * k]) && HexValue(s[2 * k + 1]) == HexValue(t[2 * k + 1]);
      assert i == 2 * k || i == 2 * k + 1;
      ValueIsInjective(s[i], t[i]);
    }
  }

  lemma SpelledByDigits(s: string, d: Digest, i: nat)
    requires Spells(s, d) && i < 64
    ensures HexValue(s[i]) >= 0
  {
    var k := i / 2;
    assert i == 2 * k || i == 2 * k + 1;
    assert HexValue(s[2 * k]) == d[k] / 16 && HexValue(s[2 * k + 1]) == d[k] % 16;
  }

  lemma LowerSpells(s: string, d: Digest)
    requires |s| == 64
    ensures Spells(s, d) <==> SpellsLower(ToLower(s), d)
  {
    forall i | 0 <= i < 64
      ensures HexValue(s[i]) >= 0 ==> HexValue(ToLower(s)[i]) == HexValue(s[i]) && !('A' <= ToLower(s)[i] <= 'F')
      ensures HexValue(s[i]) < 0 ==> HexValue(ToLower(s)[i]) < 0
    {
      LowerKeepsValue(s[i]);
    }
    if Spells(s, d) {
      forall i | 0 <= i < 64
        ensures HexValue(s[i]) >= 0
      {
        SpelledByDigits(s, d, i);
      }
      forall i | 0 <= i < 32
        ensures HexValue(ToLower(s)[2 * i]) == d[i] / 16 && HexValue(ToLower(s)[2 * i + 1]) == d[i] % 16
      {
      }
    }
    if SpellsLower(ToLower(s), d) {
      forall i | 0 <= i < 32
        ensures HexValue(s[2 * i]) == d[i] / 16 && HexValue(s[2 * i + 1]) == d[i] % 16
      {
        SpelledByDigits(ToLower(s), d, 2 * i);
        SpelledByDigits(ToLower(s), d, 2 * i + 1);
      }
    }
  }

  lemma LowerTextExactly(s: string, d: Digest)
    ensures s == ToHex(d) <==> SpellsLower(s, d)
  {
    ToHexSpells(d);
    if SpellsLower(s, d) {
      SpellingIsUnique(s, ToHex(d), d);
    }
  }

  /** Digests are compared without regard to the case of the text. */
  lemma DigestExactly(d: Digest, v: DrawRecord.Value)
    ensures HexEq(d, v) <==> SaysDigest(v, d)
  {
    if v.Str? && |v.s| == 64 {
      LowerSpells(v.s, d);
      LowerTextExactly(ToLower(v.s), d);
    }
  }

  lemma ZeroAt(n: nat, i: nat)
    requires i < n
    ensures Zeros(n)[i] == 0
  {
  }

  lemma NonZeroExactly(d: Digest)
    ensures d != ZERO <==> IsNonZero(d)
  {
    forall i: nat | i < 32
      ensures ZERO[i] == 0
    {
      ZeroAt(32, i);
    }
  }

  lemma {:induction false} LessFrom(a: seq<byte>, b: seq<byte>)
    requires |a| == |b|
    ensures Less(a, b) <==> exists k :: 0 <= k < |a| && a[k] < b[k] && forall i :: 0 <= i < k ==> a[i] == b[i]
  {
    if a != [] {
      LessFrom(a[1..], b[1..]);
      if a[0] == b[0] {
        if Less(a[1..], b[1..]) {
          var k :| 0 <= k < |a| - 1 && a[1..][k] < b[1..][k] && forall i :: 0 <= i < k ==> a[1..][i] == b[1..][i];
          assert a[k + 1] < b[k + 1];
          forall i | 0 <= i < k + 1
            ensures a[i] == b[i]
          {
            assert i > 0 ==> a[1..][i - 1] == b[1..][i - 1];
          }
        }
        if k :| 0 <= k < |a| && a[k] < b[k] && forall i :: 0 <= i < k ==> a[i] == b[i] {
          assert a[1..][k - 1] < b[1..][k - 1];
          assert forall i :: 0 <= i < k - 1 ==> a[1..][i] == a[i + 1] && b[1..][i] == b[i + 1];
        }
      }
    }
  }

  lemma EarlierExactly(a: Digest, b: Digest)
    ensures Less(a, b) <==> Earlier(a, b)
  {
    LessFrom(a, b);
  }

  // ---- the record ----

  lemma ShapeExactly(ctx: Context, r: Record)
    ensures ShapeOk(ctx, r) <==> IsShaped(ctx, r)
  {
    NumberExactly(r.version, 1);
    NumberExactly(r.slotId, ctx.slotId);
    NumberExactly(r.targetEpoch, ctx.epoch);
  }

  lemma RulesExactly(p: Parameters)
    ensures Sound(p) <==> Rules(p)
  {
  }

  lemma ListsExactly(raw: ParameterRecord, p: Parameters)
    requires |raw.fields| == FIELD_COUNT
    ensures Lists(raw, p) <==> forall i :: 0 <= i < FIELD_COUNT ==> ToBounded(raw.fields[i]) == Some(p[i])
    ensures Lists(raw, p) <==> AllBounded(raw.fields) && DrawRecord.Numbers(raw.fields) == p
  {
    forall i | 0 <= i < FIELD_COUNT
      ensures ToBounded(raw.fields[i]) == Some(p[i]) <==> IsNumber(raw.fields[i], p[i])
    {
      NumberExactly(raw.fields[i], p[i]);
    }
    if Lists(raw, p) {
      assert AllBounded(raw.fields);
      assert DrawRecord.Numbers(raw.fields) == p;
    }
    if AllBounded(raw.fields) && DrawRecord.Numbers(raw.fields) == p {
      forall i | 0 <= i < FIELD_COUNT
        ensures ToBounded(raw.fields[i]) == Some(p[i])
      {
        assert DrawRecord.Numbers(raw.fields)[i] == p[i];
      }
    }
  }

  lemma PublishesExactly(raw: Option<ParameterRecord>, p: Parameters)
    requires raw.Some? ==> |raw.value.fields| == FIELD_COUNT
    ensures ParametersPublished(raw, p) <==> Publishes(raw, p)
  {
    if raw.Some? {
      ListsExactly(raw.value, p);
    }
    RulesExactly(p);
  }

  lemma JudgeRefusesExactly(p: Parameters, exclude: bool)
    ensures Judge(p, exclude).Refused? <==> BreaksEarlyRule(p) || (p[7] <= 2048 && (!exclude || !Rules(p)))
  {
    JudgeExactly(p, exclude);
  }

  lemma {:induction false} FirstUnboundedExactly(fields: seq<DrawRecord.Value>) returns (i: nat)
    requires !AllBounded(fields)
    ensures i < |fields| && FirstUnbounded(fields) == Some(fields[i]) && ToBounded(fields[i]).None?
    ensures forall j :: 0 <= j < i ==> ToBounded(fields[j]).Some?
  {
    i := 0;
    if ToBounded(fields[0]).Some? {
      assert fields == [fields[0]] + fields[1..];
      i := FirstUnboundedExactly(fields[1..]);
      assert forall j :: 0 < j < i + 1 ==> fields[j] == fields[1..][j - 1];
      i := i + 1;
    }
  }

  lemma UnboundedRefusesExactly(raw: ParameterRecord)
    requires |raw.fields| == FIELD_COUNT && !AllBounded(raw.fields)
    ensures ParametersOf(Some(raw)).Refused? <==> Refuses(Some(raw))
  {
    var i := FirstUnboundedExactly(raw.fields);
    UnsignedExactly(raw.fields[i]);
    forall j | 0 <= j < |raw.fields|
      ensures ToBounded(raw.fields[j]).Some? <==> HasNumber(raw.fields[j])
    {
      HasNumberExactly(raw.fields[j]);
    }
    assert forall p: Parameters :: !Lists(raw, p) by {
      forall p: Parameters
        ensures !Lists(raw, p)
      {
        ListsExactly(raw, p);
      }
    }
    if !IsUnsigned(raw.fields[i]) {
      assert IsNotNumber(raw.fields, i);
    } else {
      assert forall k: nat :: k < i ==> HasNumber(raw.fields[k]);
    }
  }

  lemma BoundedRefusesExactly(raw: ParameterRecord)
    requires |raw.fields| == FIELD_COUNT && AllBounded(raw.fields)
    ensures ParametersOf(Some(raw)).Refused? <==> Refuses(Some(raw))
  {
    var p: Parameters := DrawRecord.Numbers(raw.fields);
    ListsExactly(raw, p);
    JudgeRefusesExactly(p, true);
    JudgeRefusesExactly(p, false);
    forall i: nat
      ensures !IsNotNumber(raw.fields, i)
    {
      if i < |raw.fields| {
        HasNumberExactly(raw.fields[i]);
      }
    }
    forall q: Parameters
      ensures Lists(raw, q) <==> q == p
    {
      ListsExactly(raw, q);
    }
  }

  /** Parameters are refused exactly when they break a rule, not when they are beyond the verifier's limits. */
  lemma RefusesExactly(raw: Option<ParameterRecord>)
    requires raw.Some? ==> |raw.value.fields| == FIELD_COUNT
    ensures ParametersOf(raw).Refused? <==> Refuses(raw)
  {
    if raw.Some? {
      if AllBounded(raw.value.fields) {
        BoundedRefusesExactly(raw.value);
      } else {
        UnboundedRefusesExactly(raw.value);
      }
    }
  }

  lemma OffersExactly(raw: DrawRecord.Value, max: nat, ids: seq<Digest>)
    ensures CandidatesPublished(raw, max, ids) <==> Offers(raw, max, ids)
  {
    forall i | 0 <= i < |ids|
      ensures ids[i] != ZERO <==> IsNonZero(ids[i])
    {
      NonZeroExactly(ids[i]);
    }
    if raw.Arr? && |raw.items| == |ids| {
      forall i | 0 <= i < |ids|
        ensures raw.items[i] == Str(ToHex(ids[i])) <==> raw.items[i].Str? && SpellsLower(raw.items[i].s, ids[i])
      {
        if raw.items[i].Str? {
          LowerTextExactly(raw.items[i].s, ids[i]);
        }
      }
    }
    forall i, j | 0 <= i < j < |ids|
      ensures Less(ids[i], ids[j]) <==> Earlier(ids[i], ids[j])
    {
      EarlierExactly(ids[i], ids[j]);
    }
  }

  // ---- the anchor ----

  lemma DigestLikeExactly(v: DrawRecord.Value)
    ensures IsDigestText(v) <==> IsDigestLike(v)
  {
  }

  /** The memo is the one of this slot, epoch and these digests. */
  lemma MemoExactly(memo: MemoRecord, ctx: Context)
    ensures IsMemoOf(memo, ctx) <==>
            var m := DecodeAnchorMemo(Some(memo)); m.Some? && m.value.slot == ctx.slotId && m.value.epoch == ctx.epoch
    ensures DecodeAnchorMemo(Some(memo)).Some? ==>
              var m := DecodeAnchorMemo(Some(memo)).value; memo.set_ == Str(m.set_) && memo.params == Str(m.params)
  {
    NumberExactly(memo.slot, ctx.slotId);
    NumberExactly(memo.epoch, ctx.epoch);
    DigestLikeExactly(memo.set_);
    DigestLikeExactly(memo.params);
  }

  lemma OnlyPublished(input: Input, p: Parameters, q: Parameters)
    requires WellTyped(input) && Publishes(input.record.parameters, p) && Publishes(input.record.parameters, q)
    ensures p == q
  {
    ListsExactly(input.record.parameters.value, p);
    ListsExactly(input.record.parameters.value, q);
  }

  lemma OnlyOffered(raw: DrawRecord.Value, max: nat, ids: seq<Digest>, ids': seq<Digest>)
    requires Offers(raw, max, ids) && Offers(raw, max, ids')
    ensures ids == ids'
  {
    OffersExactly(raw, max, ids);
    OffersExactly(raw, max, ids');
    CandidatesExactly(raw, max, ids);
    CandidatesExactly(raw, max, ids');
  }

  /** What was parsed is what is published, and nothing is published otherwise. */
  lemma ParsedIsPublished(input: Input)
    requires WellTyped(input)
    ensures ParsedOf(input).Accepted? <==> exists p: Parameters :: Publishes(input.record.parameters, p)
    ensures ParsedOf(input).Accepted? ==> Publishes(input.record.parameters, ParsedOf(input).params)
  {
    if ParsedOf(input).Accepted? {
      ParsedExactly(input, ParsedOf(input).params, []);
      PublishesExactly(input.record.parameters, ParsedOf(input).params);
    }
    if p: Parameters :| Publishes(input.record.parameters, p) {
      PublishesExactly(input.record.parameters, p);
      ParsedExactly(input, p, []);
    }
  }

  lemma IdsAreOffered(input: Input, p: Parameters)
    requires WellTyped(input) && ParsedOf(input) == Accepted(p)
    ensures IdsOfRecord(input).Some? <==> exists ids :: Offers(input.record.candidates, p[5], ids)
    ensures IdsOfRecord(input).Some? ==> Offers(input.record.candidates, p[5], IdsOfRecord(input).value)
  {
    if IdsOfRecord(input).Some? {
      ParsedExactly(input, p, IdsOfRecord(input).value);
      OffersExactly(input.record.candidates, p[5], IdsOfRecord(input).value);
    }
    if ids :| Offers(input.record.candidates, p[5], ids) {
      OffersExactly(input.record.candidates, p[5], ids);
      ParsedExactly(input, p, ids);
    }
  }

  /** The indexed anchor is contradicted exactly when its memo does not commit to what the record publishes. */
  lemma AnchorFailsExactly(hash: Hash, input: Input)
    requires WellTyped(input)
    ensures AnchorAnswer(input.anchor, input.ctx, SetHashOf(hash, input), ParamsHashOf(hash, input),
                         ToBounded(input.record.anchor.confirmedHeight)) == Fails <==>
            AnchorContradicts(hash, input)
  {
    if input.anchor.Some? && input.anchor.value.memo.Some? {
      var memo := input.anchor.value.memo.value;
      MemoExactly(memo, input.ctx);
      NumberExactly(input.record.anchor.confirmedHeight, input.anchor.value.height);
      if DecodeAnchorMemo(Some(memo)).Some? {
        CommitsParametersExactly(hash, input, memo.params);
        CommitsCandidatesExactly(hash, input, memo.set_);
      }
    }
  }

  lemma CommitsParametersExactly(hash: Hash, input: Input, v: DrawRecord.Value)
    requires WellTyped(input) && v.Str?
    ensures CommitsParameters(hash, input.record.parameters, v) <==>
            ParamsHashOf(hash, input).None? || v.s == ToHex(ParamsHashOf(hash, input).value)
  {
    ParsedIsPublished(input);
    if ParsedOf(input).Accepted? {
      var p := ParsedOf(input).params;
      LowerTextExactly(v.s, hash(Params(p, true)));
      forall q: Parameters | Publishes(input.record.parameters, q)
        ensures q == p
      {
        OnlyPublished(input, p, q);
      }
    }
  }

  lemma CommitsCandidatesExactly(hash: Hash, input: Input, v: DrawRecord.Value)
    requires WellTyped(input) && v.Str?
    ensures CommitsCandidates(hash, input, v) <==>
            SetHashOf(hash, input).None? || v.s == ToHex(SetHashOf(hash, input).value)
  {
    ParsedIsPublished(input);
    if ParsedOf(input).Accepted? {
      var p := ParsedOf(input).params;
      forall q: Parameters | Publishes(input.record.parameters, q)
        ensures q == p
      {
        OnlyPublished(input, p, q);
      }
      IdsAreOffered(input, p);
      if IdsOfRecord(input).Some? {
        var ids := IdsOfRecord(input).value;
        LowerTextExactly(v.s, hash(CandidateSet(input.ctx, ids)));
        forall ids' | Offers(input.record.candidates, p[5], ids')
          ensures ids' == ids
        {
          OnlyOffered(input.record.candidates, p[5], ids, ids');
        }
      }
    }
  }

  // ---- the window ----

  /** The window is in place exactly when it starts behind the confirmed height by the committed offset. */
  lemma PlacedExactly(r: Record, p: Parameters)
    requires Sound(p)
    ensures r.beacon.Some? && !WindowFailed(p, r) <==> exists start: nat, end: nat :: IsPlaced(r, p, start, end)
  {
    if r.beacon.Some? && !WindowFailed(p, r) {
      var start, end := ToBounded(r.beacon.value.startHeight).value, ToBounded(r.beacon.value.endHeight).value;
      NumberExactly(r.beacon.value.startHeight, start);
      NumberExactly(r.beacon.value.endHeight, end);
      NumberExactly(r.anchor.confirmedHeight, ToBounded(r.anchor.confirmedHeight).value);
      assert IsPlaced(r, p, start, end);
    }
    if start: nat, end: nat :| IsPlaced(r, p, start, end) {
      PlacedAt(r, p, start, end);
    }
  }

  lemma PlacedAt(r: Record, p: Parameters, start: nat, end: nat)
    requires Sound(p) && IsPlaced(r, p, start, end)
    ensures r.beacon.Some? && !WindowFailed(p, r)
    ensures ToBounded(r.beacon.value.startHeight) == Some(start) && ToBounded(r.beacon.value.endHeight) == Some(end)
    ensures start <= end && end - start + 1 == WindowBlocks(p)
  {
    var confirmed: nat :| IsNumber(r.anchor.confirmedHeight, confirmed)
                          && start == confirmed + p[6] && end == start + p[7] - 1;
    NumberExactly(r.anchor.confirmedHeight, confirmed);
    NumberExactly(r.beacon.value.startHeight, start);
    NumberExactly(r.beacon.value.endHeight, end);
  }

  lemma {:induction false} ByHeightIsLastRow(blocks: seq<Block>, start: nat, end: nat, h: nat)
    ensures h in ByHeight(blocks, start, end) <==> start <= h <= end && exists i :: IsRowOf(blocks, h, i)
    ensures forall i :: h in ByHeight(blocks, start, end) && IsRowOf(blocks, h, i) ==>
              ByHeight(blocks, start, end)[h] == blocks[i]
  {
    if blocks != [] {
      var n := |blocks| - 1;
      ByHeightIsLastRow(blocks[..n], start, end, h);
      if blocks[n].height == h {
        assert IsRowOf(blocks, h, n);
      } else {
        forall i
          ensures IsRowOf(blocks, h, i) <==> IsRowOf(blocks[..n], h, i)
        {
        }
      }
    }
  }

  lemma Hex32Exactly(s: string, d: Digest)
    ensures Hex32(s) == Some(d) <==> Spells(s, d)
  {
    if |s| == 64 {
      LowerSpells(s, d);
      LowerTextExactly(ToLower(s), d);
      if Spells(s, d) {
        forall i | 0 <= i < 64
          ensures IsHexDigit(s[i])
        {
          SpelledByDigits(s, d, i);
        }
        FromHexOfToHex(d);
      }
      if AllHex(s) {
        ToHexOfFromHex(ToLower(s));
      }
    }
  }

  /** The entry of a complete row says what the row does. */
  lemma TellsExactly(blocks: seq<Block>, start: nat, end: nat, e: Entry)
    requires start <= e.height <= end
    ensures var view := ByHeight(blocks, start, end);
            Tells(blocks, e) <==> Complete(view, e.height) && e == EntryOf(view[e.height])
  {
    var view := ByHeight(blocks, start, end);
    ByHeightExactly(blocks, start, end);
    ByHeightIsLastRow(blocks, start, end, e.height);
    if e.height in view && view[e.height].hash.Some? {
      Hex32Exactly(view[e.height].hash.value, e.hash);
    }
  }

  lemma KnownExactly(blocks: seq<Block>, start: nat, end: nat, h: nat)
    requires start <= h <= end
    ensures IsKnown(blocks, h) <==> Complete(ByHeight(blocks, start, end), h)
  {
    var view := ByHeight(blocks, start, end);
    ByHeightExactly(blocks, start, end);
    if Complete(view, h) {
      TellsExactly(blocks, start, end, EntryOf(view[h]));
    }
    if e: Entry :| e.height == h && Tells(blocks, e) {
      TellsExactly(blocks, start, end, e);
    }
  }

  /** The whole window is known, and these are its entries. */
  lemma WholeExactly(blocks: seq<Block>, start: nat, end: nat, target: nat, entries: seq<Entry>)
    requires start <= end
    ensures IsWhole(blocks, start, end, target, entries) <==>
            IsWindow(ByHeight(blocks, start, end), start, end, target, entries)
  {
    var view := ByHeight(blocks, start, end);
    forall h | start <= h <= end
      ensures IsKnown(blocks, h) <==> Complete(view, h)
    {
      KnownExactly(blocks, start, end, h);
    }
    forall e: Entry | start <= e.height <= end
      ensures Tells(blocks, e) <==> Complete(view, e.height) && e == EntryOf(view[e.height])
    {
      TellsExactly(blocks, start, end, e);
    }
    WholeParts(blocks, view, start, end, target, entries);
  }

  lemma WholeParts(blocks: seq<Block>, view: map<nat, Block>, start: nat, end: nat, target: nat, entries: seq<Entry>)
    requires start <= end
    requires forall h :: start <= h <= end ==> (IsKnown(blocks, h) <==> Complete(view, h))
    requires forall e: Entry :: start <= e.height <= end ==>
               (Tells(blocks, e) <==> Complete(view, e.height) && e == EntryOf(view[e.height]))
    ensures IsWhole(blocks, start, end, target, entries) <==> IsWindow(view, start, end, target, entries)
  {
  }
}
