/** The published record of a selection draw, which is hostile input: its bounded numbers, its parameters,
    its candidate list, and the memo of its anchor transaction. */
module DrawRecord {
  import opened Wrappers
  import opened Bytes
  import opened Decimal
  import opened Hex
  import opened Sorting
  import opened DrawFraming

  /** A JSON value; a member the record does not have is `Undefined`. */
  datatype Value = Undefined | Null | Bool(b: bool) | Num(n: real) | Str(s: string) | Arr(items: seq<Value>) | Object

  const MAX_SAFE_INTEGER := 9007199254740991.0
  const MAX_WINDOW_BLOCKS: nat := 2048
  const MAX_CANDIDATES: nat := 65536

  // ---- bounded numbers ----

  predicate IsInteger(n: real) {
    n.Floor as real == n
  }

  function BoundedDigits(s: string): Option<nat> {
    if s == "" || !AllDigits(s) || |s| > MAX_UINT_DIGITS then None else Some(Decimal.Value(s))
  }

  function ToBounded(v: Value): Option<nat> {
    match v
    case Num(n) =>
      if !IsInteger(n) || n < 0.0 || n > MAX_SAFE_INTEGER then None else BoundedDigits(ToDecimal(n.Floor))
    case Str(s) => BoundedDigits(s)
    case _ => None
  }

  /** An unsigned integer, of any size. */
  predicate IsLargeUint(v: Value) {
    (v.Str? && v.s != "" && AllDigits(v.s)) || (v.Num? && IsInteger(v.n) && v.n >= 0.0)
  }

  lemma BoundedBelow(v: Value)
    ensures ToBounded(v).Some? ==> ToBounded(v).value < PowerOfTen(MAX_UINT_DIGITS) && IsLargeUint(v)
  {
    match v {
      case Num(n) =>
        if IsInteger(n) && 0.0 <= n && |ToDecimal(n.Floor)| <= MAX_UINT_DIGITS {
          ValueBelowPower(ToDecimal(n.Floor), MAX_UINT_DIGITS);
        }
      case Str(s) =>
        if AllDigits(s) && |s| <= MAX_UINT_DIGITS {
          ValueBelowPower(s, MAX_UINT_DIGITS);
        }
      case _ =>
    }
  }

  // ---- parameters ----

  /** The parameters object: its numeric members in hashing order, and the exclusion flag. */
  datatype ParameterRecord = ParameterRecord(fields: seq<Value>, exclude: Value)

  /** Twelve numbers, in hashing order. */
  type Parameters = v: seq<nat> | |v| == FIELD_COUNT witness seq(FIELD_COUNT, _ => 0)

  function ParamsVersion(p: Parameters): nat { p[0] }

  function PolicyVersion(p: Parameters): nat { p[1] }

  function RateBps(p: Parameters): nat { p[2] }

  function MaxSelected(p: Parameters): nat { p[3] }

  function MaxPerSelection(p: Parameters): nat { p[4] }

  function MaxCandidates(p: Parameters): nat { p[5] }

  function StartOffset(p: Parameters): nat { p[6] }

  function WindowBlocks(p: Parameters): nat { p[7] }

  function ChainMinBlocks(p: Parameters): nat { p[8] }

  function ChainMinProposers(p: Parameters): nat { p[9] }

  function MinBlocks(p: Parameters): nat { p[10] }

  function MinProposers(p: Parameters): nat { p[11] }

  /** Parameters are accepted, refused, or beyond what this verifier can represent or is willing to check. */
  datatype Parsed = Accepted(params: Parameters) | Refused | BeyondLimits

  /** The rules, in the order they are applied. */
  function Judge(p: Parameters, exclude: bool): Parsed {
    if RateBps(p) <= 0 || RateBps(p) > 5000 then Refused
    else if MaxSelected(p) == 0 then Refused
    else if MaxPerSelection(p) == 0 then Refused
    else if ParamsVersion(p) == 0 then Refused
    else if PolicyVersion(p) == 0 then Refused
    else if StartOffset(p) == 0 then Refused
    else if WindowBlocks(p) == 0 then Refused
    else if WindowBlocks(p) > MAX_WINDOW_BLOCKS then BeyondLimits
    else if MaxCandidates(p) == 0 then Refused
    else if ChainMinBlocks(p) == 0 || ChainMinProposers(p) == 0 then Refused
    else if MinBlocks(p) > ChainMinBlocks(p) then Refused
    else if MinProposers(p) > ChainMinProposers(p) then Refused
    else if MinBlocks(p) == 0 then Refused
    else if MinProposers(p) == 0 then Refused
    else if MinProposers(p) > MinBlocks(p) then Refused
    else if MinBlocks(p) > WindowBlocks(p) then Refused
    else if !exclude then Refused
    else Accepted(p)
  }

  predicate AllBounded(fields: seq<Value>) {
    forall i :: 0 <= i < |fields| ==> ToBounded(fields[i]).Some?
  }

  function Numbers(fields: seq<Value>): (p: seq<nat>)
    requires AllBounded(fields)
    ensures |p| == |fields|
  {
    seq(|fields|, i requires 0 <= i < |fields| => ToBounded(fields[i]).value)
  }

  /** The first member that is not a bounded number. */
  function FirstUnbounded(fields: seq<Value>): (v: Option<Value>)
    ensures v.None? <==> AllBounded(fields)
  {
    if fields == [] then None
    else if ToBounded(fields[0]).None? then Some(fields[0])
    else
      assert fields == [fields[0]] + fields[1..];
      FirstUnbounded(fields[1..])
  }

  function ParametersOf(raw: Option<ParameterRecord>): Parsed
    requires raw.Some? ==> |raw.value.fields| == FIELD_COUNT
  {
    if raw.None? then Refused
    else
      var unbounded := FirstUnbounded(raw.value.fields);
      if unbounded.Some? then
        if IsLargeUint(unbounded.value) then BeyondLimits else Refused
      else if !raw.value.exclude.Bool? then Refused
      else Judge(Numbers(raw.value.fields), raw.value.exclude.b)
  }

  /** The members are read in order until one is not a bounded number; then the rules are applied. */
  method ParseParameters(raw: Option<ParameterRecord>) returns (parsed: Parsed)
    requires raw.Some? ==> |raw.value.fields| == FIELD_COUNT
    ensures parsed == ParametersOf(raw)
  {
    if raw.None? {
      return Refused;
    }
    var fields := raw.value.fields;
    var values: seq<nat> := [];
    for i := 0 to |fields|
      invariant |values| == i
      invariant forall k :: 0 <= k < i ==> ToBounded(fields[k]) == Some(values[k])
      invariant FirstUnbounded(fields) == FirstUnbounded(fields[i..])
    {
      var v := ToBounded(fields[i]);
      if v.None? {
        return if IsLargeUint(fields[i]) then BeyondLimits else Refused;
      }
      assert fields[i..][1..] == fields[i + 1..];
      values := values + [v.value];
    }
    assert AllBounded(fields);
    assert values == Numbers(fields);
    if !raw.value.exclude.Bool? {
      return Refused;
    }
    return Judge(values, raw.value.exclude.b);
  }

  /** The rules as one condition: positive sizes and versions, a rate of at most one half, thresholds no
      stronger than the chain's that the window can meet, and the target slot excluded. */
  ghost predicate Sound(p: Parameters) {
    && (forall i :: 0 <= i < FIELD_COUNT ==> p[i] > 0)
    && RateBps(p) <= 5000
    && MinProposers(p) <= ChainMinProposers(p)
    && MinBlocks(p) <= ChainMinBlocks(p)
    && MinProposers(p) <= MinBlocks(p) <= WindowBlocks(p) <= MAX_WINDOW_BLOCKS
  }

  lemma JudgeExactly(p: Parameters, exclude: bool)
    ensures Judge(p, exclude) == Accepted(p) <==> Sound(p) && exclude
    ensures Judge(p, exclude).Accepted? ==> Judge(p, exclude) == Accepted(p)
  {
    if Judge(p, exclude).Accepted? {
      forall i | 0 <= i < FIELD_COUNT
        ensures p[i] > 0
      {
        assert i == 0 || i == 1 || i == 2 || i == 3 || i == 4 || i == 5
               || i == 6 || i == 7 || i == 8 || i == 9 || i == 10 || i == 11;
      }
    }
  }

  /** Parameters are accepted exactly when every member is a bounded number and the rules hold. */
  lemma ParametersAcceptedExactly(raw: ParameterRecord, p: Parameters)
    requires |raw.fields| == FIELD_COUNT
    ensures ParametersOf(Some(raw)) == Accepted(p) <==>
            && (forall i :: 0 <= i < FIELD_COUNT ==> ToBounded(raw.fields[i]) == Some(p[i]))
            && raw.exclude == Bool(true)
            && Sound(p)
  {
    if AllBounded(raw.fields) {
      JudgeExactly(Numbers(raw.fields), true);
      JudgeExactly(Numbers(raw.fields), false);
      if forall i :: 0 <= i < FIELD_COUNT ==> ToBounded(raw.fields[i]) == Some(p[i]) {
        assert Numbers(raw.fields) == p;
      }
    }
  }

  // ---- candidates ----

  function IdOf(v: Value): Option<Digest> {
    if v.Str? then DrawId32(v.s) else None
  }

  predicate AllIds(items: seq<Value>) {
    forall i :: 0 <= i < |items| ==> IdOf(items[i]).Some?
  }

  function Ids(items: seq<Value>): (ids: seq<Digest>)
    requires AllIds(items)
    ensures |ids| == |items|
  {
    seq(|items|, i requires 0 <= i < |items| => IdOf(items[i]).value)
  }

  /** Strictly increasing, hence without duplicates. */
  ghost predicate InOrder(ids: seq<Digest>) {
    Increasing<seq<byte>>(ids, Less)
  }

  /** The candidates of a list within both caps whose ids strictly increase; none otherwise. */
  ghost function CandidatesOf(raw: Value, max: nat): Option<seq<Digest>> {
    if raw.Arr? && |raw.items| <= MAX_CANDIDATES && |raw.items| <= max && AllIds(raw.items)
       && InOrder(Ids(raw.items))
    then Some(Ids(raw.items))
    else None
  }

  lemma LessIsStrict()
    ensures StrictOrder(Less)
  {
    forall x: seq<byte>
      ensures !Less(x, x)
    {
      LessIsIrreflexive(x);
    }
    forall x: seq<byte>, y: seq<byte>, z: seq<byte> | Less(x, y) && Less(y, z)
      ensures Less(x, z)
    {
      LessIsTransitive(x, y, z);
    }
  }

  lemma AppendIncreases(ids: seq<Digest>, id: Digest)
    requires InOrder(ids)
    ensures InOrder(ids + [id]) <==> ids == [] || Less(ids[|ids| - 1], id)
  {
    var longer := ids + [id];
    if ids != [] {
      if Less(ids[|ids| - 1], id) {
        forall i | 0 <= i < |ids|
          ensures Less(ids[i], id)
        {
          if i < |ids| - 1 {
            LessIsTransitive(ids[i], ids[|ids| - 1], id);
          }
        }
      } else {
        assert !Less(longer[|ids| - 1], longer[|ids|]);
      }
    }
  }

  lemma PrefixIsInOrder(items: seq<Value>, n: nat)
    requires n <= |items| && AllIds(items[..n])
    ensures AllIds(items) && InOrder(Ids(items)) ==> InOrder(Ids(items[..n]))
  {
    if AllIds(items) {
      assert Ids(items)[..n] == Ids(items[..n]);
    }
  }

  /** One pass, comparing each id with the one before it. */
  method ParseCandidates(raw: Value, max: nat) returns (candidates: Option<seq<Digest>>)
    ensures candidates == CandidatesOf(raw, max)
  {
    if !raw.Arr? || |raw.items| > MAX_CANDIDATES || |raw.items| > max {
      return None;
    }
    var out: seq<Digest> := [];
    for i := 0 to |raw.items|
      invariant AllIds(raw.items[..i]) && out == Ids(raw.items[..i])
      invariant InOrder(out)
    {
      var id := IdOf(raw.items[i]);
      if id.None? {
        return None;
      }
      assert raw.items[..i + 1] == raw.items[..i] + [raw.items[i]];
      ghost var longer := Ids(raw.items[..i + 1]);
      assert longer == out + [id.value];
      AppendIncreases(out, id.value);
      if i > 0 && !Less(out[i - 1], id.value) {
        PrefixIsInOrder(raw.items, i + 1);
        return None;
      }
      out := out + [id.value];
    }
    assert raw.items[..|raw.items|] == raw.items;
    return Some(out);
  }

  /** A candidate list is accepted in exactly one form: the lower-case ids, none zero, strictly increasing. */
  lemma CandidatesExactly(raw: Value, max: nat, ids: seq<Digest>)
    ensures CandidatesOf(raw, max) == Some(ids) <==>
            && raw.Arr? && |raw.items| == |ids| <= max && |ids| <= MAX_CANDIDATES
            && (forall i :: 0 <= i < |ids| ==> raw.items[i] == Str(ToHex(ids[i])) && ids[i] != ZERO)
            && InOrder(ids)
  {
    if raw.Arr? && |raw.items| == |ids| {
      forall i | 0 <= i < |ids|
        ensures IdOf(raw.items[i]) == Some(ids[i]) <==> raw.items[i] == Str(ToHex(ids[i])) && ids[i] != ZERO
      {
        if raw.items[i].Str? {
          DrawId32Exactly(raw.items[i].s, ids[i]);
        }
      }
      if forall i :: 0 <= i < |ids| ==> IdOf(raw.items[i]) == Some(ids[i]) {
        assert Ids(raw.items) == ids;
      }
    }
  }

  // ---- the anchor memo ----

  /** The parsed memo: whether its keys are exactly the five expected ones, and their values. */
  datatype MemoRecord = MemoRecord(exactKeys: bool, v: Value, slot: Value, epoch: Value, set_: Value, params: Value)

  datatype Memo = Memo(slot: nat, epoch: nat, set_: string, params: string)

  /** 64 lower-case hexadecimal characters, not all zero. */
  predicate IsDigestText(v: Value) {
    v.Str? && |v.s| == 64 && AllLowerHex(v.s) && exists i :: 0 <= i < 64 && v.s[i] != '0'
  }

  /** `memo` is absent when there is none, or it is too long, or it is not JSON. */
  function DecodeAnchorMemo(memo: Option<MemoRecord>): Option<Memo> {
    if memo.None? then None
    else
      var m := memo.value;
      var slot, epoch := ToBounded(m.slot), ToBounded(m.epoch);
      if !m.exactKeys || m.v != Num(1.0) then None
      else if slot.None? || slot.value == 0 || epoch.None? then None
      else if !IsDigestText(m.set_) || !IsDigestText(m.params) then None
      else Some(Memo(slot.value, epoch.value, m.set_.s, m.params.s))
  }

  /** Compare a digest with a published one, of either case; anything but a string is a contradiction. */
  predicate HexEq(digest: Digest, published: Value) {
    published.Str? && ToHex(digest) == ToLower(published.s)
  }
}
