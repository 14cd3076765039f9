/**
 * Hexadecimal text: the `hex::encode` byte encoding (two lower-case digits
 * per byte) with its decoding inverse, and base-16 numerals as read by
 * `from_str_radix(_, 16)`.
 */
module Hex {
  import opened Wrappers
  import opened Primitives
  import Decimal

  /** A digit of radix 16 as Rust's `char::to_digit(16)` accepts it: either case. */
  predicate IsHexDigit(c: char) {
    '0' <= c <= '9' || 'a' <= c <= 'f' || 'A' <= c <= 'F'
  }

  predicate IsLowerHexDigit(c: char) {
    '0' <= c <= '9' || 'a' <= c <= 'f'
  }

  predicate AllHexDigits(s: string) {
    forall i :: 0 <= i < |s| ==> IsHexDigit(s[i])
  }

  predicate AllLowerHexDigits(s: string) {
    forall i :: 0 <= i < |s| ==> IsLowerHexDigit(s[i])
  }

  /** The lower-case digit for a value below 16. */
  function DigitChar(d: nat): (c: char)
    requires d < 16
    ensures IsLowerHexDigit(c)
  {
    if d < 10 then Decimal.DigitChar(d) else ('a' as int + (d - 10)) as char
  }

  /** The value of a digit of either case. */
  function DigitValue(c: char): (d: nat)
    requires IsHexDigit(c)
    ensures d < 16
  {
    if '0' <= c <= '9' then c as int - '0' as int
    else if 'a' <= c <= 'f' then c as int - 'a' as int + 10
    else c as int - 'A' as int + 10
  }

  lemma DigitValueOfChar(d: nat)
    requires d < 16
    ensures DigitValue(DigitChar(d)) == d
  {
  }

  // Byte payloads

  /** `hex::encode`: the high then the low nibble of each byte, in order. */
  function EncodeBytes(bytes: seq<Byte>): (s: string)
    ensures |s| == 2 * |bytes|
    ensures AllLowerHexDigits(s)
  {
    if bytes == [] then []
    else [DigitChar(bytes[0] / 16), DigitChar(bytes[0] % 16)] + EncodeBytes(bytes[1..])
  }

  /** Reads back pairs of hex digits as bytes; fails on odd length or a non-digit. */
  function DecodeBytes(s: string): Option<seq<Byte>> {
    if s == [] then Some([])
    else if |s| == 1 || !IsHexDigit(s[0]) || !IsHexDigit(s[1]) then None
    else match DecodeBytes(s[2..])
      case None => None
      case Some(rest) => Some([16 * DigitValue(s[0]) + DigitValue(s[1])] + rest)
  }

  /** Decoding inverts the payload encoding. */
  lemma {:induction false} DecodeEncode(bytes: seq<Byte>)
    ensures DecodeBytes(EncodeBytes(bytes)) == Some(bytes)
  {
    if bytes != [] {
      var s := EncodeBytes(bytes);
      assert s[2..] == EncodeBytes(bytes[1..]);
      DecodeEncode(bytes[1..]);
      DigitValueOfChar(bytes[0] / 16);
      DigitValueOfChar(bytes[0] % 16);
      assert [bytes[0]] + bytes[1..] == bytes;
    }
  }

  /** Distinct payloads encode differently. */
  lemma EncodeInjective(a: seq<Byte>, b: seq<Byte>)
    requires EncodeBytes(a) == EncodeBytes(b)
    ensures a == b
  {
    DecodeEncode(a);
    DecodeEncode(b);
  }

  // Numerals

  /** The number a run of hex digits denotes, most significant first (0 for no digits). */
  function NumeralValue(s: string): nat
    requires AllHexDigits(s)
  {
    if s == [] then 0 else 16 * NumeralValue(s[..|s| - 1]) + DigitValue(s[|s| - 1])
  }

  /** The shortest lower-case numeral for `n`, as a node writes a quantity after "0x". */
  function Numeral(n: nat): (s: string)
    ensures |s| >= 1 && AllLowerHexDigits(s)
  {
    if n < 16 then [DigitChar(n)] else Numeral(n / 16) + [DigitChar(n % 16)]
  }

  /** Reading inverts writing. */
  lemma {:induction false} NumeralValueOfNumeral(n: nat)
    ensures AllHexDigits(Numeral(n)) && NumeralValue(Numeral(n)) == n
  {
    var s := Numeral(n);
    if n < 16 {
      DigitValueOfChar(n);
    } else {
      assert s[..|s| - 1] == Numeral(n / 16);
      NumeralValueOfNumeral(n / 16);
      DigitValueOfChar(n % 16);
    }
  }
}
