/**
 Lower-case hexadecimal encoding of random bytes, as the CSRF token
 generator performs it: each byte becomes two characters of `HEX_CHARS`,
 the high nibble (`b >> 4`) first and the low nibble (`b & 0x0f`) second.
 Decoding is the partner used to show that the encoding loses nothing.
 */
module Hex {

  newtype byte = x: int | 0 <= x < 256

  const HexChars: string := "0123456789abcdef"

  predicate IsLowerHexChar(c: char) {
    '0' <= c <= '9' || 'a' <= c <= 'f'
  }

  /** Every character is in `[0-9a-f]`. */
  predicate IsLowerHex(s: string) {
    forall k :: 0 <= k < |s| ==> IsLowerHexChar(s[k])
  }

  /** The value 0..15 a lower-case hex digit stands for. */
  function DigitValue(c: char): (n: int)
    requires IsLowerHexChar(c)
    ensures 0 <= n < 16
  {
    if c <= '9' then c as int - '0' as int else c as int - 'a' as int + 10
  }

  /** `HEX_CHARS[n]`: the digit for a nibble; it is a lower-case hex digit
      and reads back as `n`. */
  function Digit(n: int): (c: char)
    requires 0 <= n < 16
    ensures IsLowerHexChar(c) && DigitValue(c) == n
  {
    assert |HexChars| == 16;
    DigitFacts(n);
    HexChars[n]
  }

  lemma DigitFacts(n: int)
    requires 0 <= n < 16
    ensures IsLowerHexChar(HexChars[n]) && DigitValue(HexChars[n]) == n
  {
    if n < 10 {
      assert HexChars[n] == ('0' as int + n) as char by {
        assert HexChars[..10] == "0123456789";
      }
    } else {
      assert HexChars[n] == ('a' as int + n - 10) as char by {
        assert HexChars[10..] == "abcdef";
        assert HexChars[n] == HexChars[10..][n - 10];
      }
    }
  }

  function High(b: byte): int { b as int / 16 }
  function Low(b: byte): int { b as int % 16 }

  /** Two characters per byte, high nibble then low nibble, all from
      `HEX_CHARS`. */
  function Encode(bytes: seq<byte>): (s: string)
    ensures |s| == 2 * |bytes|
    ensures IsLowerHex(s)
    ensures forall i :: 0 <= i < |bytes| ==> s[2 * i] == Digit(High(bytes[i])) && s[2 * i + 1] == Digit(Low(bytes[i]))
  {
    if bytes == [] then []
    else
      var rest := Encode(bytes[1..]);
      var s := [Digit(High(bytes[0])), Digit(Low(bytes[0]))] + rest;
      EncodeStep(bytes, rest, s);
      s
  }

  lemma EncodeStep(bytes: seq<byte>, rest: string, s: string)
    requires |bytes| > 0 && |rest| == 2 * (|bytes| - 1) && IsLowerHex(rest)
    requires forall i :: 0 <= i < |bytes| - 1 ==> rest[2 * i] == Digit(High(bytes[1..][i])) && rest[2 * i + 1] == Digit(Low(bytes[1..][i]))
    requires s == [Digit(High(bytes[0])), Digit(Low(bytes[0]))] + rest
    ensures IsLowerHex(s)
    ensures forall i :: 0 <= i < |bytes| ==> s[2 * i] == Digit(High(bytes[i])) && s[2 * i + 1] == Digit(Low(bytes[i]))
  {
    forall i | 0 <= i < |bytes|
      ensures s[2 * i] == Digit(High(bytes[i])) && s[2 * i + 1] == Digit(Low(bytes[i]))
    {
      if i > 0 {
        var j := i - 1;
        assert bytes[1..][j] == bytes[i];
        assert s[2 * i] == rest[2 * j] && s[2 * i + 1] == rest[2 * j + 1];
      }
    }
    forall k | 0 <= k < |s|
      ensures IsLowerHexChar(s[k])
    {
      if k >= 2 {
        assert s[k] == rest[k - 2];
      }
    }
  }

  /** Encoding one more byte appends its two digits. */
  lemma {:induction false} EncodeAppend(bytes: seq<byte>, b: byte)
    ensures Encode(bytes + [b]) == Encode(bytes) + [Digit(High(b)), Digit(Low(b))]
  {
    if bytes != [] {
      assert (bytes + [b])[1..] == bytes[1..] + [b];
      EncodeAppend(bytes[1..], b);
    }
  }

  /** The partner of `Encode`: pairs of digits back to bytes. */
  function Decode(s: string): (bytes: seq<byte>)
    requires |s| % 2 == 0 && IsLowerHex(s)
    ensures |bytes| == |s| / 2
  {
    if s == [] then []
    else [(16 * DigitValue(s[0]) + DigitValue(s[1])) as byte] + Decode(s[2..])
  }

  lemma {:induction false} DecodeEncode(bytes: seq<byte>)
    ensures Decode(Encode(bytes)) == bytes
  {
    if bytes != [] {
      var s := Encode(bytes);
      assert s[2..] == Encode(bytes[1..]);
      DecodeEncode(bytes[1..]);
      assert DigitValue(s[0]) == High(bytes[0]) && DigitValue(s[1]) == Low(bytes[0]);
    }
  }

  lemma {:induction false} EncodeDecode(s: string)
    requires |s| % 2 == 0 && IsLowerHex(s)
    ensures Encode(Decode(s)) == s
  {
    if s != [] {
      var bytes := Decode(s);
      var b := bytes[0];
      assert bytes[1..] == Decode(s[2..]);
      EncodeDecode(s[2..]);
      assert High(b) == DigitValue(s[0]) && Low(b) == DigitValue(s[1]);
      DigitOfValue(s[0]);
      DigitOfValue(s[1]);
      var e := Encode(bytes);
      assert e[..2] == s[..2];
      assert e[2..] == Encode(bytes[1..]);
      assert e == e[..2] + e[2..] && s == s[..2] + s[2..];
    }
  }

  lemma DigitOfValue(c: char)
    requires IsLowerHexChar(c)
    ensures Digit(DigitValue(c)) == c
  {
    var n := DigitValue(c);
    assert DigitValue(Digit(n)) == n;
  }

  /** Distinct random byte strings give distinct tokens. */
  lemma EncodeInjective(a: seq<byte>, b: seq<byte>)
    requires Encode(a) == Encode(b)
    ensures a == b
  {
    DecodeEncode(a);
    DecodeEncode(b);
  }
}
