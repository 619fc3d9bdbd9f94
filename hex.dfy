/**
 Lower-case hexadecimal rendering of a byte slice, as Go's `fmt.Sprintf("%x", b)`
 produces it for a `[]byte`: two digits per byte, high nibble first, digits
 `0-9a-f`. A renewal token is this rendering of 32 random bytes.
 */
module Hex {

  type Byte = x: int | 0 <= x < 256

  /** The 32 bytes that `make([]byte, 32)` allocates and `rand.Read` fills. */
  type Bytes32 = s: seq<Byte> | |s| == 32 witness seq(32, _ => 0)

  const Digits: string := "0123456789abcdef"

  predicate IsHexDigit(c: char) {
    ('0' <= c <= '9') || ('a' <= c <= 'f')
  }

  /** Every character is a lower-case hexadecimal digit. */
  predicate IsLowerHex(s: string) {
    forall i :: 0 <= i < |s| ==> IsHexDigit(s[i])
  }

  /** The value of one lower-case hexadecimal digit. */
  function DigitValue(c: char): (n: int)
    requires IsHexDigit(c)
    ensures 0 <= n < 16 && Digits[n] == c
  {
    if c <= '9' then c as int - '0' as int else c as int - 'a' as int + 10
  }

  lemma DigitRoundTrip(n: int)
    requires 0 <= n < 16
    ensures IsHexDigit(Digits[n]) && DigitValue(Digits[n]) == n
  {
  }

  /** The value of the `i`-th digit of the rendering: the high nibble of a
      byte comes first, then its low nibble. */
  function Nibble(b: seq<Byte>, i: int): (n: int)
    requires 0 <= i < 2 * |b|
    ensures 0 <= n < 16
  {
    if i % 2 == 0 then b[i / 2] / 16 else b[i / 2] % 16
  }

  /** `%x` of a byte slice. */
  function Encode(b: seq<Byte>): (s: string)
    ensures |s| == 2 * |b|
  {
    seq(2 * |b|, i requires 0 <= i < 2 * |b| => Digits[Nibble(b, i)])
  }

  /** Byte `i` becomes digits `2 * i` and `2 * i + 1`. */
  lemma EncodeAt(b: seq<Byte>, i: int)
    requires 0 <= i < |b|
    ensures Encode(b)[2 * i] == Digits[b[i] / 16] && Encode(b)[2 * i + 1] == Digits[b[i] % 16]
  {
    assert Nibble(b, 2 * i) == b[i] / 16;
    assert Nibble(b, 2 * i + 1) == b[i] % 16;
  }

  lemma EncodeIsLowerHex(b: seq<Byte>)
    ensures IsLowerHex(Encode(b))
  {
    var s := Encode(b);
    forall i | 0 <= i < |s|
      ensures IsHexDigit(s[i])
    {
      DigitRoundTrip(Nibble(b, i));
    }
  }

  /** The inverse of Encode: two digits back into one byte. */
  function Decode(s: string): (b: seq<Byte>)
    requires |s| % 2 == 0 && IsLowerHex(s)
    ensures 2 * |b| == |s|
  {
    seq(|s| / 2, i requires 0 <= i < |s| / 2 => DigitValue(s[2 * i]) * 16 + DigitValue(s[2 * i + 1]))
  }

  lemma DecodeEncode(b: seq<Byte>)
    ensures IsLowerHex(Encode(b)) && Decode(Encode(b)) == b
  {
    EncodeIsLowerHex(b);
    var d := Decode(Encode(b));
    forall i | 0 <= i < |b|
      ensures d[i] == b[i]
    {
      var s := Encode(b);
      var hi, lo := b[i] / 16, b[i] % 16;
      EncodeAt(b, i);
      DigitRoundTrip(hi);
      DigitRoundTrip(lo);
      assert DigitValue(s[2 * i]) == hi && DigitValue(s[2 * i + 1]) == lo;
      assert d[i] == hi * 16 + lo;
    }
  }

  lemma EncodeDecode(s: string)
    requires |s| % 2 == 0 && IsLowerHex(s)
    ensures Encode(Decode(s)) == s
  {
    var b := Decode(s);
    forall j | 0 <= j < |s|
      ensures Encode(b)[j] == s[j]
    {
      var i := j / 2;
      var hi, lo := DigitValue(s[2 * i]), DigitValue(s[2 * i + 1]);
      assert b[i] == hi * 16 + lo;
      assert b[i] / 16 == hi && b[i] % 16 == lo;
      EncodeAt(b, i);
      assert j == 2 * i || j == 2 * i + 1;
    }
  }

  /** Distinct random byte strings give distinct tokens. */
  lemma EncodeInjective(a: seq<Byte>, b: seq<Byte>)
    ensures Encode(a) == Encode(b) ==> a == b
  {
    DecodeEncode(a);
    DecodeEncode(b);
  }

  /** A renewal token is 64 lower-case hexadecimal characters. */
  lemma TokenShape(b: Bytes32)
    ensures |Encode(b)| == 64 && IsLowerHex(Encode(b))
  {
    EncodeIsLowerHex(b);
  }
}
