/** The URL-safe base64 alphabet without padding (section 5 of RFC 4648), with the lenient decoder of
    `Buffer`: a single leftover character and the unused low bits of the last one are dropped. */
module Base64Url {
  import opened Bytes

  type sextet = x: int | 0 <= x < 64

  function Char(v: sextet): char {
    if v < 26 then (65 + v) as char
    else if v < 52 then (97 + v - 26) as char
    else if v < 62 then (48 + v - 52) as char
    else if v == 62 then '-' else '_'
  }

  predicate InAlphabet(c: char) {
    'A' <= c <= 'Z' || 'a' <= c <= 'z' || '0' <= c <= '9' || c == '-' || c == '_'
  }

  predicate AllInAlphabet(s: string) {
    forall i :: 0 <= i < |s| ==> InAlphabet(s[i])
  }

  function Value(c: char): (v: sextet)
    requires InAlphabet(c)
    ensures Char(v) == c
  {
    if 'A' <= c <= 'Z' then c as int - 65
    else if 'a' <= c <= 'z' then c as int - 97 + 26
    else if '0' <= c <= '9' then c as int - 48 + 52
    else if c == '-' then 62 else 63
  }

  function Text(v: seq<sextet>): (s: string)
    ensures |s| == |v| && AllInAlphabet(s)
  {
    seq(|v|, i requires 0 <= i < |v| => Char(v[i]))
  }

  function Values(s: string): (v: seq<sextet>)
    requires AllInAlphabet(s)
    ensures |v| == |s|
  {
    seq(|s|, i requires 0 <= i < |s| => Value(s[i]))
  }

  const UPPER := "ABCDEFGHIJKLMNOPQRSTUVWXYZ"
  const LOWER := "abcdefghijklmnopqrstuvwxyz"
  const OTHERS := "0123456789-_"
  const ALPHABET := UPPER + LOWER + OTHERS

  lemma UpperChars(v: sextet)
    requires v < 26
    ensures |UPPER| == 26 && Char(v) == UPPER[v]
  {
  }

  lemma LowerChars(v: sextet)
    requires 26 <= v < 52
    ensures |LOWER| == 26 && Char(v) == LOWER[v - 26]
  {
  }

  lemma OtherChars(v: sextet)
    requires 52 <= v
    ensures |OTHERS| == 12 && Char(v) == OTHERS[v - 52]
  {
  }

  lemma CharsAreTheAlphabet(v: sextet)
    ensures |ALPHABET| == 64 && Char(v) == ALPHABET[v]
  {
    if v < 26 {
      UpperChars(v);
    } else if v < 52 {
      LowerChars(v);
    } else {
      OtherChars(v);
    }
  }

  // ---- bits, most significant first ----

  function PowerOfTwo(width: nat): nat {
    if width == 0 then 1 else 2 * PowerOfTwo(width - 1)
  }

  function Bits(n: nat, width: nat): (bits: seq<bool>)
    ensures |bits| == width
  {
    if width == 0 then [] else Bits(n / 2, width - 1) + [n % 2 == 1]
  }

  function FromBits(bits: seq<bool>): (n: nat)
    ensures n < PowerOfTwo(|bits|)
  {
    if bits == [] then 0
    else 2 * FromBits(bits[..|bits| - 1]) + (if bits[|bits| - 1] then 1 else 0)
  }

  /** The bits of all numbers, `width` of each. */
  function Flatten(numbers: seq<nat>, width: nat): (bits: seq<bool>)
    ensures |bits| == |numbers| * width
  {
    if numbers == [] then []
    else Flatten(numbers[..|numbers| - 1], width) + Bits(numbers[|numbers| - 1], width)
  }

  /** The numbers made of `width` bits each; bits left over at the end are dropped. */
  function Group(bits: seq<bool>, width: nat): (numbers: seq<nat>)
    requires width > 0
    ensures forall i :: 0 <= i < |numbers| ==> numbers[i] < PowerOfTwo(width)
  {
    if |bits| < width then []
    else [FromBits(bits[..width])] + Group(bits[width..], width)
  }

  function Zeros(n: nat): seq<bool> {
    seq(n, _ => false)
  }

  /** How many zero bits complete the last sextet of `n` bytes. */
  function Padding(n: nat): (bits: nat)
    ensures bits < 6
  {
    if n % 3 == 0 then 0 else if n % 3 == 1 then 4 else 2
  }

  function Pack(b: seq<byte>): seq<sextet> {
    Group(Flatten(b, 8) + Zeros(Padding(|b|)), 6)
  }

  function Unpack(v: seq<sextet>): seq<byte> {
    Group(Flatten(v, 6), 8)
  }

  function Encode(b: seq<byte>): string {
    Text(Pack(b))
  }

  function Decode(s: string): seq<byte>
    requires AllInAlphabet(s)
  {
    Unpack(Values(s))
  }

  lemma ValuesOfText(v: seq<sextet>)
    ensures Values(Text(v)) == v
  {
    forall i | 0 <= i < |v|
      ensures Values(Text(v))[i] == v[i]
    {
      ValueOfChar(v[i]);
    }
  }

  lemma ValueOfChar(v: sextet)
    ensures InAlphabet(Char(v)) && Value(Char(v)) == v
  {
  }

  lemma {:induction false} FromBitsOfBits(n: nat, width: nat)
    requires n < PowerOfTwo(width)
    ensures FromBits(Bits(n, width)) == n
  {
    if width > 0 {
      FromBitsOfBits(n / 2, width - 1);
      assert Bits(n, width)[..width - 1] == Bits(n / 2, width - 1);
    }
  }

  lemma {:induction false} BitsOfFromBits(bits: seq<bool>)
    ensures Bits(FromBits(bits), |bits|) == bits
  {
    if bits != [] {
      BitsOfFromBits(bits[..|bits| - 1]);
    }
  }

  lemma {:induction false} FlattenHead(numbers: seq<nat>, width: nat)
    requires numbers != []
    ensures Flatten(numbers, width) == Bits(numbers[0], width) + Flatten(numbers[1..], width)
  {
    var n := |numbers| - 1;
    if n > 0 {
      FlattenHead(numbers[..n], width);
      assert numbers[..n][1..] == numbers[1..][..n - 1];
    }
  }

  lemma {:induction false} GroupOfFlatten(numbers: seq<nat>, width: nat)
    requires width > 0 && forall i :: 0 <= i < |numbers| ==> numbers[i] < PowerOfTwo(width)
    ensures Group(Flatten(numbers, width), width) == numbers
  {
    if numbers != [] {
      FlattenHead(numbers, width);
      FromBitsOfBits(numbers[0], width);
      GroupOfFlatten(numbers[1..], width);
      var bits := Flatten(numbers, width);
      assert bits[..width] == Bits(numbers[0], width);
      assert bits[width..] == Flatten(numbers[1..], width);
      assert numbers == [numbers[0]] + numbers[1..];
    }
  }

  /** Grouped bits flatten to all of them but the fewer than `width` that were dropped. */
  lemma {:induction false} FlattenOfGroup(bits: seq<bool>, width: nat)
    requires width > 0
    ensures var whole := Flatten(Group(bits, width), width);
            |whole| <= |bits| < |whole| + width && bits[..|whole|] == whole
  {
    if |bits| >= width {
      var numbers := Group(bits, width);
      FlattenHead(numbers, width);
      assert numbers[1..] == Group(bits[width..], width);
      BitsOfFromBits(bits[..width]);
      FlattenOfGroup(bits[width..], width);
      var rest := Flatten(numbers[1..], width);
      assert bits == bits[..width] + bits[width..];
      assert bits[..width + |rest|] == bits[..width] + rest;
    }
  }

  lemma PaddingCompletes(n: nat, k: nat)
    requires 6 * k <= 8 * n + Padding(n) < 6 * k + 6
    ensures 6 * k == 8 * n + Padding(n)
  {
    var q := n / 3;
    assert n == 3 * q + n % 3;
  }

  /** The sextets hold the bytes' bits followed by the padding, and nothing else. */
  lemma PackHoldsBits(b: seq<byte>)
    ensures Flatten(Pack(b), 6) == Flatten(b, 8) + Zeros(Padding(|b|))
  {
    var padded := Flatten(b, 8) + Zeros(Padding(|b|));
    var whole := Flatten(Pack(b), 6);
    assert |whole| <= |padded| < |whole| + 6 && padded[..|whole|] == whole by {
      FlattenOfGroup(padded, 6);
    }
    PaddingCompletes(|b|, |Pack(b)|);
    assert |whole| == |padded|;
  }

  /** A number written in the given base, most significant digit first. */
  function Number(digits: seq<nat>, base: nat): nat {
    if digits == [] then 0
    else Number(digits[..|digits| - 1], base) * base + digits[|digits| - 1]
  }

  lemma {:induction false} FromBitsOfSum(bits: seq<bool>, more: seq<bool>)
    ensures FromBits(bits + more) == FromBits(bits) * PowerOfTwo(|more|) + FromBits(more)
  {
    if more == [] {
      assert bits + more == bits;
    } else {
      var k := |more| - 1;
      FromBitsOfSum(bits, more[..k]);
      OneMoreBit(bits + more[..k], more[k]);
      OneMoreBit(more[..k], more[k]);
      assert bits + more == bits + more[..k] + [more[k]] && more == more[..k] + [more[k]];
      OneMoreDigit(FromBits(bits), PowerOfTwo(k), FromBits(more[..k]), if more[k] then 1 else 0);
    }
  }

  lemma OneMoreBit(bits: seq<bool>, bit: bool)
    ensures FromBits(bits + [bit]) == 2 * FromBits(bits) + (if bit then 1 else 0)
  {
    assert (bits + [bit])[..|bits|] == bits;
  }

  lemma OneMoreDigit(a: nat, p: nat, f: nat, digit: nat)
    ensures 2 * (a * p + f) + digit == a * (2 * p) + (2 * f + digit)
  {
  }

  lemma {:induction false} FromZeros(n: nat)
    ensures FromBits(Zeros(n)) == 0
  {
    if n > 0 {
      assert Zeros(n)[..n - 1] == Zeros(n - 1);
      FromZeros(n - 1);
    }
  }

  lemma {:induction false} FromBitsOfFlatten(digits: seq<nat>, width: nat)
    requires forall i :: 0 <= i < |digits| ==> digits[i] < PowerOfTwo(width)
    ensures FromBits(Flatten(digits, width)) == Number(digits, PowerOfTwo(width))
  {
    if digits != [] {
      var n := |digits| - 1;
      FromBitsOfFlatten(digits[..n], width);
      FromBitsOfSum(Flatten(digits[..n], width), Bits(digits[n], width));
      FromBitsOfBits(digits[n], width);
    }
  }

  /** Read as one number, the sextets are the bytes' number followed by the padding's zero bits. */
  lemma PackKeepsTheNumber(b: seq<byte>)
    ensures 6 * |Pack(b)| == 8 * |b| + Padding(|b|)
    ensures Number(Pack(b), 64) == Number(b, 256) * PowerOfTwo(Padding(|b|))
  {
    PackHoldsBits(b);
    assert PowerOfTwo(6) == 64 && PowerOfTwo(8) == 256 by {
      assert PowerOfTwo(4) == 16;
    }
    FromBitsOfFlatten(Pack(b), 6);
    FromBitsOfFlatten(b, 8);
    FromBitsOfSum(Flatten(b, 8), Zeros(Padding(|b|)));
    FromZeros(Padding(|b|));
  }

  /** The text of some bytes is the least number of base-64 digits that hold their number. */
  lemma EncodeExactly(b: seq<byte>)
    ensures 6 * |Encode(b)| == 8 * |b| + Padding(|b|)
    ensures Number(Pack(b), 64) == Number(b, 256) * PowerOfTwo(Padding(|b|))
    ensures |Pack(b)| == |Encode(b)| && |ALPHABET| == 64
    ensures forall i :: 0 <= i < |Encode(b)| ==> Encode(b)[i] == ALPHABET[Pack(b)[i]]
  {
    PackKeepsTheNumber(b);
    forall i | 0 <= i < |Encode(b)|
      ensures |ALPHABET| == 64 && Encode(b)[i] == ALPHABET[Pack(b)[i]]
    {
      CharsAreTheAlphabet(Pack(b)[i]);
    }
    CharsAreTheAlphabet(0);
  }

  lemma UnpackHoldsBits(v: seq<sextet>)
    ensures var whole := Flatten(Unpack(v), 8);
            |whole| <= 6 * |v| < |whole| + 8 && Flatten(v, 6)[..|whole|] == whole
  {
    FlattenOfGroup(Flatten(v, 6), 8);
  }

  lemma {:induction false} SameBits(a: seq<nat>, b: seq<nat>, width: nat)
    requires width > 0 && Flatten(a, width) == Flatten(b, width)
    requires forall i :: 0 <= i < |a| ==> a[i] < PowerOfTwo(width)
    requires forall i :: 0 <= i < |b| ==> b[i] < PowerOfTwo(width)
    ensures a == b
  {
    GroupOfFlatten(a, width);
    GroupOfFlatten(b, width);
  }

  lemma UnpackOfPack(b: seq<byte>)
    ensures Unpack(Pack(b)) == b
  {
    var bits := Flatten(b, 8);
    PackHoldsBits(b);
    UnpackHoldsBits(Pack(b));
    assert |Unpack(Pack(b))| == |b|;
    assert Flatten(Pack(b), 6)[..|bits|] == bits;
    assert PowerOfTwo(8) == 256 by {
      assert PowerOfTwo(4) == 16;
    }
    SameBits(Unpack(Pack(b)), b, 8);
  }

  /** Every byte string is decoded from its encoding. */
  lemma DecodeOfEncode(b: seq<byte>)
    ensures Decode(Encode(b)) == b
  {
    ValuesOfText(Pack(b));
    UnpackOfPack(b);
  }

  /** How many bits of `m` sextets do not fill a byte. */
  function Unused(m: nat): (bits: nat)
    ensures bits <= 6 * m
  {
    if m % 4 == 0 then 0 else if m % 4 == 1 then 6 else if m % 4 == 2 then 4 else 2
  }

  /** No leftover sextet, and zero in the bits that do not fill a byte. */
  predicate Full(v: seq<sextet>) {
    |v| % 4 != 1 && forall i :: 6 * |v| - Unused(|v|) <= i < 6 * |v| ==> !Flatten(v, 6)[i]
  }

  predicate Canonical(s: string)
    requires AllInAlphabet(s)
  {
    Full(Values(s))
  }

  /** `m` sextets hold `n` bytes, which take `m` sextets again unless one was left over. */
  lemma BytesOfSextets(m: nat, n: nat)
    requires 8 * n <= 6 * m < 8 * n + 8
    ensures 8 * n + Unused(m) == 6 * m
    ensures m % 4 != 1 ==> Padding(n) == Unused(m)
    ensures m % 4 == 1 ==> Padding(n) == 0
  {
    var q := m / 4;
    assert m == 4 * q + m % 4;
    assert n == 3 * q + (if m % 4 <= 1 then 0 else m % 4 - 1);
  }

  lemma PackOfUnpackExactly(v: seq<sextet>)
    ensures Pack(Unpack(v)) == v <==> Full(v)
  {
    var bits, b := Flatten(v, 6), Unpack(v);
    UnpackHoldsBits(v);
    PackHoldsBits(b);
    BytesOfSextets(|v|, |b|);
    var n, zeros := 8 * |b|, Zeros(Padding(|b|));
    assert bits == bits[..n] + bits[n..];
    if Full(v) {
      assert bits[n..] == zeros;
      SameBits(Pack(b), v, 6);
    }
  }

  /** Encoding what was decoded gives back the same text exactly when the text is canonical. */
  lemma EncodeOfDecodeExactly(s: string)
    requires AllInAlphabet(s)
    ensures Encode(Decode(s)) == s <==> Canonical(s)
  {
    PackOfUnpackExactly(Values(s));
    ValuesOfText(Pack(Decode(s)));
    assert Text(Values(s)) == s;
  }
}
