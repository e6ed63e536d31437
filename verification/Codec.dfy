/** Pagination cursors: decimal heights and colon-joined keys, carried as canonical unpadded base64url. */
module Codec {
  import opened Wrappers
  import opened Decimal
  import Base64Url
  import Utf8

  const INT64_MAX: nat := 9223372036854775807
  const MAX_UINT64_DIGITS: nat := 20

  // ---- numbers ----

  function ParseUint64(value: string): Option<nat> {
    if value == "" || !AllDigits(value) || |value| > MAX_UINT64_DIGITS then None
    else
      var parsed := Value(value);
      if parsed > INT64_MAX then None else Some(parsed)
  }

  // ---- text ----

  /** The cursor text that carries `text`. */
  function EncodeText(text: string): string {
    Base64Url.Encode(Utf8.Encode(text))
  }

  /** The carried text; none for characters outside the alphabet or a non-canonical form. */
  function ParseSingle(raw: string): Option<string> {
    if raw == "" || !Base64Url.AllInAlphabet(raw) then None
    else
      var decoded := Utf8.Decode(Base64Url.Decode(raw));
      if EncodeText(decoded) != raw then None else Some(decoded)
  }

  lemma EncodedTextReadsBack(text: string)
    ensures Base64Url.AllInAlphabet(EncodeText(text))
    ensures Utf8.Decode(Base64Url.Decode(EncodeText(text))) == text
  {
    Base64Url.DecodeOfEncode(Utf8.Encode(text));
    Utf8.DecodeOfEncode(text);
  }

  lemma EncodedTextIsEmptyExactly(text: string)
    ensures EncodeText(text) == "" <==> text == ""
  {
    EncodedTextReadsBack(text);
    EncodedTextReadsBack("");
  }

  /** The accepted cursor texts are exactly the encodings of non-empty text, each of one text only. */
  lemma ParseSingleExactly(raw: string, text: string)
    ensures ParseSingle(raw) == Some(text) <==> text != "" && raw == EncodeText(text)
  {
    EncodedTextReadsBack(text);
    EncodedTextIsEmptyExactly(text);
  }

  // ---- one height ----

  function EncodeCursor(height: nat): string {
    EncodeText(ToDecimal(height))
  }

  function DecodeCursor(raw: string): Option<nat> {
    match ParseSingle(raw)
    case Some(text) => ParseUint64(text)
    case None => None
  }

  lemma DecimalFitsInt64(n: nat)
    requires n <= INT64_MAX
    ensures |ToDecimal(n)| <= MAX_UINT64_DIGITS
  {
    assert PowerOfTen(10) == 10000000000 by {
      assert PowerOfTen(5) == 100000;
    }
    assert PowerOfTen(15) == 1000000000000000;
    DecimalLength(n, 20);
  }

  lemma ParseUint64OfDecimal(n: nat)
    ensures ParseUint64(ToDecimal(n)) == if n <= INT64_MAX then Some(n) else None
  {
    ValueOfDecimal(n);
    if n <= INT64_MAX {
      DecimalFitsInt64(n);
    }
  }

  /** A height survives the round trip exactly when it fits a signed 64-bit integer. */
  lemma CursorRoundTrip(height: nat)
    ensures DecodeCursor(EncodeCursor(height)) == if height <= INT64_MAX then Some(height) else None
  {
    ParseSingleExactly(EncodeCursor(height), ToDecimal(height));
    ParseUint64OfDecimal(height);
  }

  /** The texts that decode into a height: its digits, with leading zeros up to twenty characters. */
  lemma DecodeCursorExactly(raw: string, height: nat)
    ensures DecodeCursor(raw) == Some(height) <==>
            exists text :: raw == EncodeText(text) && 1 <= |text| <= MAX_UINT64_DIGITS
                           && AllDigits(text) && Value(text) == height <= INT64_MAX
  {
    if DecodeCursor(raw) == Some(height) {
      ParseSingleExactly(raw, ParseSingle(raw).value);
    }
    if text :| raw == EncodeText(text) && 1 <= |text| <= MAX_UINT64_DIGITS
               && AllDigits(text) && Value(text) == height <= INT64_MAX {
      ParseSingleExactly(raw, text);
    }
  }

  // ---- key parts ----

  function Join(parts: seq<string>): string {
    if parts == [] then ""
    else if |parts| == 1 then parts[0]
    else Join(parts[..|parts| - 1]) + ":" + parts[|parts| - 1]
  }

  function Split(text: string): (parts: seq<string>)
    ensures |parts| >= 1
  {
    if text == "" then [""]
    else
      var n, c := |text| - 1, text[|text| - 1];
      var earlier := Split(text[..n]);
      if c == ':' then earlier + [""]
      else earlier[|earlier| - 1 := earlier[|earlier| - 1] + [c]]
  }

  function EncodeKeyset(parts: seq<string>): string {
    EncodeText(Join(parts))
  }

  function DecodeKeyset(raw: string, expectedParts: nat): Option<seq<string>> {
    match ParseSingle(raw)
    case None => None
    case Some(text) =>
      var parts := Split(text);
      if |parts| != expectedParts || "" in parts then None else Some(parts)
  }

  lemma {:induction false} SplitAppend(text: string, part: string)
    requires ':' !in part
    ensures var parts := Split(text);
            Split(text + part) == parts[|parts| - 1 := parts[|parts| - 1] + part]
  {
    var parts := Split(text);
    if part == "" {
      assert text + part == text;
      assert parts[|parts| - 1] + part == parts[|parts| - 1];
    } else {
      var n := |part| - 1;
      SplitAppend(text, part[..n]);
      assert (text + part)[..|text| + n] == text + part[..n];
      assert part == part[..n] + [part[n]];
      assert part[n] in part;
      assert parts[|parts| - 1] + part == parts[|parts| - 1] + part[..n] + [part[n]];
    }
  }

  lemma SplitColon(text: string)
    ensures Split(text + ":") == Split(text) + [""]
  {
    assert (text + ":")[..|text|] == text;
  }

  lemma SplitNext(text: string, part: string)
    requires ':' !in part
    ensures Split(text + ":" + part) == Split(text) + [part]
  {
    SplitColon(text);
    SplitAppend(text + ":", part);
    assert "" + part == part;
  }

  ghost predicate ColonFree(parts: seq<string>) {
    forall i :: 0 <= i < |parts| ==> ':' !in parts[i]
  }

  lemma {:induction false} SplitOfJoin(parts: seq<string>)
    requires parts != [] && ColonFree(parts)
    ensures Split(Join(parts)) == parts
  {
    var n := |parts| - 1;
    if n == 0 {
      SplitAppend("", parts[0]);
      assert "" + parts[0] == parts[0];
    } else {
      SplitOfJoin(parts[..n]);
      SplitNext(Join(parts[..n]), parts[n]);
      assert parts == parts[..n] + [parts[n]];
    }
  }

  lemma JoinExtended(parts: seq<string>, c: char)
    requires parts != []
    ensures Join(parts[|parts| - 1 := parts[|parts| - 1] + [c]]) == Join(parts) + [c]
    ensures Join(parts + [""]) == Join(parts) + ":"
  {
    var n := |parts| - 1;
    var longer := parts[n := parts[n] + [c]];
    if n > 0 {
      assert longer[..n] == parts[..n];
    }
    assert (parts + [""])[..n + 1] == parts;
  }

  /** Splitting gives colon-free parts that join to the text. */
  lemma {:induction false} JoinOfSplit(text: string)
    ensures Join(Split(text)) == text && ColonFree(Split(text))
  {
    if text != "" {
      var n := |text| - 1;
      JoinOfSplit(text[..n]);
      JoinExtended(Split(text[..n]), text[n]);
      assert text == text[..n] + [text[n]];
    }
  }

  /** The keys the encoding is meant for: at least one part, none of them empty or holding a colon. */
  ghost predicate KeyParts(parts: seq<string>) {
    parts != [] && "" !in parts && ColonFree(parts)
  }

  lemma JoinIsEmpty(parts: seq<string>)
    requires KeyParts(parts)
    ensures Join(parts) != ""
  {
    assert parts[|parts| - 1] in parts;
  }

  /** What decodes into `parts` is their encoding and nothing else, and they are then proper key parts. */
  lemma DecodeKeysetExactly(raw: string, parts: seq<string>)
    ensures DecodeKeyset(raw, |parts|) == Some(parts) <==> KeyParts(parts) && raw == EncodeKeyset(parts)
  {
    if KeyParts(parts) && raw == EncodeKeyset(parts) {
      JoinIsEmpty(parts);
      ParseSingleExactly(raw, Join(parts));
      SplitOfJoin(parts);
    }
    if DecodeKeyset(raw, |parts|) == Some(parts) {
      var text := ParseSingle(raw).value;
      ParseSingleExactly(raw, text);
      JoinOfSplit(text);
    }
  }
}
