/** Hexadecimal text of bytes and of 32-byte digests. */
module Hex {
  import opened Wrappers
  import opened Bytes

  function Zeros(n: nat): (b: seq<byte>)
    ensures |b| == n
  {
    if n == 0 then [] else Zeros(n - 1) + [0]
  }

  type Digest = b: seq<byte> | |b| == 32 witness Zeros(32)

  const ZERO: Digest := Zeros(32)

  predicate IsLowerHexDigit(c: char) {
    '0' <= c <= '9' || 'a' <= c <= 'f'
  }

  predicate IsHexDigit(c: char) {
    IsLowerHexDigit(c) || 'A' <= c <= 'F'
  }

  predicate AllLowerHex(s: string) {
    forall i :: 0 <= i < |s| ==> IsLowerHexDigit(s[i])
  }

  predicate AllHex(s: string) {
    forall i :: 0 <= i < |s| ==> IsHexDigit(s[i])
  }

  function LowerChar(c: char): char {
    if 'A' <= c <= 'Z' then (c as int + 32) as char else c
  }

  function ToLower(s: string): (t: string)
    ensures |t| == |s|
    ensures AllHex(s) ==> AllLowerHex(t)
  {
    seq(|s|, i requires 0 <= i < |s| => LowerChar(s[i]))
  }

  function Digit(v: int): (c: char)
    requires 0 <= v < 16
    ensures IsLowerHexDigit(c)
  {
    if v < 10 then (48 + v) as char else (87 + v) as char
  }

  function DigitValue(c: char): (v: int)
    requires IsLowerHexDigit(c)
    ensures 0 <= v < 16
  {
    if c <= '9' then c as int - 48 else c as int - 87
  }

  function ToHex(b: seq<byte>): (s: string)
    ensures |s| == 2 * |b| && AllLowerHex(s)
  {
    seq(2 * |b|, i requires 0 <= i < 2 * |b| => Digit(if i % 2 == 0 then b[i / 2] / 16 else b[i / 2] % 16))
  }

  function FromHex(s: string): (b: seq<byte>)
    requires |s| % 2 == 0 && AllLowerHex(s)
    ensures |b| == |s| / 2
  {
    seq(|s| / 2, i requires 0 <= i < |s| / 2 => DigitValue(s[2 * i]) * 16 + DigitValue(s[2 * i + 1]))
  }

  lemma FromHexOfToHex(b: seq<byte>)
    ensures FromHex(ToHex(b)) == b
  {
    forall i | 0 <= i < |b|
      ensures FromHex(ToHex(b))[i] == b[i]
    {
      assert (2 * i) % 2 == 0 && (2 * i) / 2 == i && (2 * i + 1) % 2 == 1 && (2 * i + 1) / 2 == i;
    }
  }

  lemma ToHexOfFromHex(s: string)
    requires |s| % 2 == 0 && AllLowerHex(s)
    ensures ToHex(FromHex(s)) == s
  {
    forall i | 0 <= i < |s|
      ensures ToHex(FromHex(s))[i] == s[i]
    {
      var k := i / 2;
      assert i == 2 * k + i % 2;
      DigitsOfPair(DigitValue(s[2 * k]), DigitValue(s[2 * k + 1]));
    }
  }

  lemma DigitsOfPair(high: int, low: int)
    requires 0 <= high < 16 && 0 <= low < 16
    ensures (high * 16 + low) / 16 == high && (high * 16 + low) % 16 == low
  {
  }

  /** 64 hexadecimal characters of either case. */
  function Hex32(s: string): Option<Digest> {
    if |s| == 64 && AllHex(s) then Some(FromHex(ToLower(s))) else None
  }

  /** A draw id: 64 lower-case hexadecimal characters, not all zero. */
  function DrawId32(s: string): Option<Digest> {
    if |s| == 64 && AllLowerHex(s) && FromHex(s) != ZERO then Some(FromHex(s)) else None
  }

  /** A draw id is accepted in exactly one spelling. */
  lemma DrawId32Exactly(s: string, id: Digest)
    ensures DrawId32(s) == Some(id) <==> id != ZERO && s == ToHex(id)
  {
    FromHexOfToHex(id);
    if |s| == 64 && AllLowerHex(s) {
      ToHexOfFromHex(s);
    }
  }

  lemma HexIsInjective(a: seq<byte>, b: seq<byte>)
    ensures ToHex(a) == ToHex(b) <==> a == b
  {
    FromHexOfToHex(a);
    FromHexOfToHex(b);
  }
}
