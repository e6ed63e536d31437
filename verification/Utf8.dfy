/** UTF-8 as `Buffer` reads and writes it: text is a list of Unicode scalar values, and every maximal
    ill-formed piece of the bytes is read as U+FFFD. */
module Utf8 {
  import opened Bytes

  const REPLACEMENT: char := '\U{FFFD}'

  function EncodeChar(c: char): (bytes: seq<byte>)
    ensures 1 <= |bytes| <= 4
  {
    var v := c as int;
    if v < 0x80 then [v]
    else if v < 0x800 then [0xC0 + v / 0x40, 0x80 + v % 0x40]
    else if v < 0x10000 then [0xE0 + v / 0x1000, 0x80 + v / 0x40 % 0x40, 0x80 + v % 0x40]
    else [0xF0 + v / 0x40000, 0x80 + v / 0x1000 % 0x40, 0x80 + v / 0x40 % 0x40, 0x80 + v % 0x40]
  }

  function Encode(s: string): seq<byte> {
    if s == "" then [] else EncodeChar(s[0]) + Encode(s[1..])
  }

  /** How many bytes a character starting with this byte takes; 0 when no character starts so. */
  function CharLength(first: byte): nat {
    if first < 0x80 then 1
    else if 0xC2 <= first <= 0xDF then 2
    else if 0xE0 <= first <= 0xEF then 3
    else if 0xF0 <= first <= 0xF4 then 4
    else 0
  }

  /** The second bytes that neither make the form overlong nor leave the range of scalar values. */
  predicate SecondFits(first: byte, second: byte) {
    && (if first == 0xE0 then 0xA0 else if first == 0xF0 then 0x90 else 0x80) <= second
    && second <= (if first == 0xED then 0x9F else if first == 0xF4 then 0x8F else 0xBF)
  }

  predicate Continues(b: byte) {
    0x80 <= b <= 0xBF
  }

  /** The longest beginning of `bytes` that is a beginning of some character. */
  function GoodPrefix(bytes: seq<byte>): (n: nat)
    ensures n <= |bytes|
  {
    if bytes == [] || CharLength(bytes[0]) == 0 then 0
    else if CharLength(bytes[0]) == 1 || |bytes| < 2 || !SecondFits(bytes[0], bytes[1]) then 1
    else if CharLength(bytes[0]) == 2 || |bytes| < 3 || !Continues(bytes[2]) then 2
    else if CharLength(bytes[0]) == 3 || |bytes| < 4 || !Continues(bytes[3]) then 3
    else 4
  }

  /** The scalar value a complete character stands for. */
  function CharValue(bytes: seq<byte>): (c: char)
    requires bytes != [] && GoodPrefix(bytes) == CharLength(bytes[0]) > 0
  {
    var first: int := bytes[0];
    if CharLength(bytes[0]) == 1 then first as char
    else
      var second: int := bytes[1];
      if CharLength(bytes[0]) == 2 then ((first - 0xC0) * 0x40 + (second - 0x80)) as char
      else
        var third: int := bytes[2];
        if CharLength(bytes[0]) == 3 then
          ((first - 0xE0) * 0x1000 + (second - 0x80) * 0x40 + (third - 0x80)) as char
        else
          var fourth: int := bytes[3];
          ((first - 0xF0) * 0x40000 + (second - 0x80) * 0x1000 + (third - 0x80) * 0x40 + (fourth - 0x80)) as char
  }

  function Decode(bytes: seq<byte>): string {
    if bytes == [] then ""
    else
      var n := GoodPrefix(bytes);
      if n == CharLength(bytes[0]) && n > 0 then [CharValue(bytes)] + Decode(bytes[n..])
      else [REPLACEMENT] + Decode(bytes[if n == 0 then 1 else n..])
  }

  /** The six-bit digits of a scalar value, most significant first. */
  lemma Digits(v: int)
    requires 0 <= v < 0x110000
    ensures v / 0x40 * 0x40 + v % 0x40 == v
    ensures v / 0x1000 * 0x1000 + v / 0x40 % 0x40 * 0x40 + v % 0x40 == v
    ensures v / 0x40000 * 0x40000 + v / 0x1000 % 0x40 * 0x1000 + v / 0x40 % 0x40 * 0x40 + v % 0x40 == v
  {
    assert v / 0x1000 == v / 0x40 / 0x40;
    assert v / 0x40000 == v / 0x1000 / 0x40;
  }

  /** The first two bytes are neither overlong, nor a surrogate, nor above the last scalar value. */
  lemma LeadBytesFit(v: int)
    requires 0 <= v < 0x110000
    ensures 0x80 <= v < 0x800 ==> 2 <= v / 0x40 < 0x20
    ensures 0x800 <= v < 0xD800 || 0xE000 <= v < 0x10000 ==>
      && v / 0x1000 < 0x10
      && SecondFits(0xE0 + v / 0x1000, 0x80 + v / 0x40 % 0x40)
    ensures 0x10000 <= v ==>
      && v / 0x40000 < 5
      && SecondFits(0xF0 + v / 0x40000, 0x80 + v / 0x1000 % 0x40)
  {
    assert v / 0x1000 == v / 0x40 / 0x40;
    assert v / 0x40000 == v / 0x1000 / 0x40;
  }

  /** A character's bytes are read back as that character, whatever follows them. */
  lemma CharReadsBack(c: char, rest: seq<byte>)
    ensures var bytes := EncodeChar(c) + rest;
            && GoodPrefix(bytes) == CharLength(bytes[0]) == |EncodeChar(c)|
            && CharValue(bytes) == c
  {
    var v := c as int;
    Digits(v);
    LeadBytesFit(v);
  }

  lemma {:induction false} DecodeOfEncode(s: string)
    ensures Decode(Encode(s)) == s
  {
    if s != "" {
      CharReadsBack(s[0], Encode(s[1..]));
      var bytes := Encode(s);
      assert bytes[|EncodeChar(s[0])|..] == Encode(s[1..]);
      DecodeOfEncode(s[1..]);
    }
  }
}
