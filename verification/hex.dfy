/**
 * Python's `bytes.hex()` and `bytes.fromhex(text)`, the encoding the engine
 * uses for keys and payloads in its log lines.
 */
module Hex {
  import opened Wrappers
  import opened ByteKeys
  import opened Text

  /** `bytes.hex()` emits lowercase digits only. */
  predicate IsLowerHexDigit(c: char) {
    ('0' <= c <= '9') || ('a' <= c <= 'f')
  }

  /** `bytes.fromhex` accepts either case. */
  predicate IsHexDigit(c: char) {
    ('0' <= c <= '9') || ('a' <= c <= 'f') || ('A' <= c <= 'F')
  }

  function DigitValue(c: char): (v: nat)
    requires IsHexDigit(c)
    ensures v < 16
  {
    if '0' <= c <= '9' then (c as int - '0' as int)
    else if 'a' <= c <= 'f' then (c as int - 'a' as int) + 10
    else (c as int - 'A' as int) + 10
  }

  /** The lowercase digit for a nibble. */
  function NibbleHex(n: nat): (c: char)
    requires n < 16
    ensures IsLowerHexDigit(c) && DigitValue(c) == n
  {
    if n < 10 then ('0' as int + n) as char else ('a' as int + (n - 10)) as char
  }

  /** The two lowercase digits of one byte, high nibble first. */
  function ByteHex(b: byte): (r: string)
    ensures |r| == 2 && IsLowerHexDigit(r[0]) && IsLowerHexDigit(r[1])
    ensures DigitValue(r[0]) * 16 + DigitValue(r[1]) == b
  {
    [NibbleHex(b / 16), NibbleHex(b % 16)]
  }

  /** `bs.hex()`: two lowercase hex digits per byte, nothing else. */
  function ToHex(bs: seq<byte>): (r: string)
    ensures |r| == 2 * |bs|
    ensures forall i :: 0 <= i < |r| ==> IsLowerHexDigit(r[i])
  {
    if bs == [] then [] else ByteHex(bs[0]) + ToHex(bs[1..])
  }

  /**
   * `bytes.fromhex(text)`: ASCII whitespace before each pair of digits (and
   * at the end) is skipped, a pair may not be split by whitespace, and any
   * other character, or a lone last digit, is an error (None).
   */
  function FromHex(text: string): (r: Option<seq<byte>>)
    ensures r.Some? ==> 2 * |r.value| <= |text|
  {
    if text == [] then Some([])
    else if IsSpace(text[0]) then FromHex(text[1..])
    else if |text| >= 2 && IsHexDigit(text[0]) && IsHexDigit(text[1]) then
      match FromHex(text[2..])
        case None => None
        case Some(rest) => Some([DigitValue(text[0]) * 16 + DigitValue(text[1])] + rest)
    else None
  }

  /** `bytes.fromhex(bs.hex()) == bs`. */
  lemma {:induction false} FromHexToHex(bs: seq<byte>)
    ensures FromHex(ToHex(bs)) == Some(bs)
  {
    if bs != [] {
      var text := ToHex(bs);
      var pair := ByteHex(bs[0]);
      assert text == pair + ToHex(bs[1..]);
      assert text[0] == pair[0] && text[1] == pair[1];
      assert !IsSpace(text[0]) && IsHexDigit(text[0]) && IsHexDigit(text[1]);
      assert text[2..] == ToHex(bs[1..]);
      FromHexToHex(bs[1..]);
      assert FromHex(text) == Some([DigitValue(pair[0]) * 16 + DigitValue(pair[1])] + bs[1..]);
      assert bs == [bs[0]] + bs[1..];
    }
  }

  /** Different byte strings have different hex texts. */
  lemma ToHexInjective(a: seq<byte>, b: seq<byte>)
    requires ToHex(a) == ToHex(b)
    ensures a == b
  {
    FromHexToHex(a);
    FromHexToHex(b);
  }
}
