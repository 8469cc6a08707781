/**
 * Bytes and their lowercase hexadecimal rendering, as produced by
 * `hex::encode` when the driver prints the final measurement.
 */
module Hex {
  import opened Wrappers
  import opened Bytes

  /** The sixteen digits `hex::encode` emits, in value order. */
  const DIGITS: string := "0123456789abcdef"

  predicate IsLowerHexDigit(c: char) {
    '0' <= c <= '9' || 'a' <= c <= 'f'
  }

  /** The value of one lowercase hex digit; anything else is rejected. */
  function DigitValue(c: char): (v: Option<nat>)
    ensures v.Some? <==> IsLowerHexDigit(c)
    ensures v.Some? ==> v.value < 16 && DIGITS[v.value] == c
  {
    if '0' <= c <= '9' then Some(c as nat - '0' as nat)
    else if 'a' <= c <= 'f' then Some(c as nat - 'a' as nat + 10)
    else None
  }

  /** The digit for a nibble; DigitValue reads it back. */
  function Digit(n: nat): (c: char)
    requires n < 16
    ensures IsLowerHexDigit(c)
    ensures DigitValue(c) == Some(n)
  {
    DIGITS[n]
  }

  /** Two lowercase hex digits per byte, high nibble first. */
  function HexEncode(bytes: seq<Byte>): (s: string)
    ensures |s| == 2 * |bytes|
    ensures forall i :: 0 <= i < |s| ==> IsLowerHexDigit(s[i])
  {
    if |bytes| == 0 then ""
    else [Digit(bytes[0] / 16), Digit(bytes[0] % 16)] + HexEncode(bytes[1..])
  }

  /** A string of even length made only of lowercase hex digits. */
  ghost predicate IsLowerHex(s: string) {
    |s| % 2 == 0 && forall i :: 0 <= i < |s| ==> IsLowerHexDigit(s[i])
  }

  /**
   * The inverse of HexEncode: accepts exactly the strings of even length made
   * of lowercase hex digits.
   */
  function HexDecode(s: string): (r: Option<seq<Byte>>)
    ensures r.Some? <==> IsLowerHex(s)
    ensures r.Some? ==> 2 * |r.value| == |s|
    decreases |s|
  {
    if |s| < 2 then (if |s| == 0 then Some([]) else None)
    else
      var hi, lo, rest := DigitValue(s[0]), DigitValue(s[1]), HexDecode(s[2..]);
      if hi.None? || lo.None? || rest.None? then None
      else Some([hi.value * 16 + lo.value] + rest.value)
  }

  /** Decoding two digits in front of a rendering prepends their byte. */
  lemma {:induction false} DecodeCons(hi: nat, lo: nat, tail: string, bytes: seq<Byte>)
    requires hi < 16 && lo < 16
    requires HexDecode(tail) == Some(bytes)
    ensures HexDecode([Digit(hi), Digit(lo)] + tail) == Some([hi * 16 + lo] + bytes)
  {
  }

  /** Decoding the rendering of any byte string gives the bytes back. */
  lemma {:induction false} DecodeEncode(bytes: seq<Byte>)
    ensures HexDecode(HexEncode(bytes)) == Some(bytes)
  {
    if |bytes| > 0 {
      var b := bytes[0];
      var hi, lo := b / 16, b % 16;
      assert hi * 16 + lo == b;
      assert HexEncode(bytes) == [Digit(hi), Digit(lo)] + HexEncode(bytes[1..]);
      DecodeEncode(bytes[1..]);
      DecodeCons(hi, lo, HexEncode(bytes[1..]), bytes[1..]);
      assert [b] + bytes[1..] == bytes;
    }
  }

  /** Every string the decoder accepts is the rendering of what it decodes to. */
  lemma {:induction false} EncodeDecode(s: string, bytes: seq<Byte>)
    requires HexDecode(s) == Some(bytes)
    ensures HexEncode(bytes) == s
    decreases |s|
  {
    if |s| > 0 {
      var hi := DigitValue(s[0]).value;
      var lo := DigitValue(s[1]).value;
      var rest := HexDecode(s[2..]).value;
      EncodeDecode(s[2..], rest);
      var b: Byte := hi * 16 + lo;
      assert b / 16 == hi && b % 16 == lo;
      assert bytes == [b] + rest;
      assert bytes[1..] == rest;
      assert HexEncode(bytes) == [s[0], s[1]] + s[2..];
    }
  }
}
