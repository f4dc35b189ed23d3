/**
 * Base16 text for byte strings, as Python's `bytes.hex()` writes it (lowercase
 * digits, two per byte) and `bytes.fromhex()` reads it (either case, an even
 * number of digits).
 */
module Hex {
  import opened Wrappers

  type Byte = x: int | 0 <= x < 256

  /** A 32-byte digest or content hash. */
  type Bytes32 = s: seq<Byte> | |s| == 32 witness seq(32, _ => 0)

  predicate IsHexDigit(c: char) {
    ('0' <= c <= '9') || ('a' <= c <= 'f') || ('A' <= c <= 'F')
  }

  predicate IsLowerHexDigit(c: char) {
    ('0' <= c <= '9') || ('a' <= c <= 'f')
  }

  /** The value of one hex digit, in either case. */
  function DigitValue(c: char): (v: nat)
    requires IsHexDigit(c)
    ensures v < 16
  {
    if '0' <= c <= '9' then c as int - '0' as int
    else if 'a' <= c <= 'f' then c as int - 'a' as int + 10
    else c as int - 'A' as int + 10
  }

  /** The lowercase digit for a value below 16. */
  function LowerDigit(v: nat): (c: char)
    requires v < 16
    ensures IsLowerHexDigit(c) && DigitValue(c) == v
  {
    if v < 10 then ('0' as int + v) as char else ('a' as int + v - 10) as char
  }

  /** A hex digit in lowercase: the digit `bytes.hex()` prints for its value. */
  function LowerChar(c: char): (l: char)
    requires IsHexDigit(c)
    ensures IsLowerHexDigit(l) && DigitValue(l) == DigitValue(c)
    ensures IsLowerHexDigit(c) ==> l == c
  {
    if 'A' <= c <= 'F' then (c as int - 'A' as int + 'a' as int) as char else c
  }

  /** The digit printed for a digit's value is that digit in lowercase. */
  lemma LowerDigitOfValue(c: char)
    requires IsHexDigit(c)
    ensures LowerDigit(DigitValue(c)) == LowerChar(c)
  {
  }

  /** `bytes.hex()`: two lowercase digits per byte, high nibble first. */
  function ToHex(bs: seq<Byte>): (s: string)
    ensures |s| == 2 * |bs|
    ensures forall i :: 0 <= i < |s| ==> IsLowerHexDigit(s[i])
  {
    if bs == [] then ""
    else [LowerDigit(bs[0] / 16), LowerDigit(bs[0] % 16)] + ToHex(bs[1..])
  }

  /**
   * `bytes.fromhex()` on a string without whitespace: defined exactly when the
   * string has an even length and every character is a hex digit.
   */
  function FromHex(s: string): (r: Option<seq<Byte>>)
    ensures r.Some? <==> |s| % 2 == 0 && forall i :: 0 <= i < |s| ==> IsHexDigit(s[i])
    ensures r.Some? ==> 2 * |r.value| == |s|
  {
    if |s| == 0 then Some([])
    else if |s| == 1 || !IsHexDigit(s[0]) || !IsHexDigit(s[1]) then None
    else
      match FromHex(s[2..])
      case None => None
      case Some(rest) => Some([DigitValue(s[0]) * 16 + DigitValue(s[1])] + rest)
  }

  /** Decoding what `ToHex` writes gives the bytes back. */
  lemma {:induction false} FromHexToHex(bs: seq<Byte>)
    ensures FromHex(ToHex(bs)) == Some(bs)
  {
    if bs != [] {
      var s := ToHex(bs);
      assert s[2..] == ToHex(bs[1..]);
      FromHexToHex(bs[1..]);
      assert DigitValue(s[0]) * 16 + DigitValue(s[1]) == bs[0];
      assert bs == [bs[0]] + bs[1..];
    }
  }

  /**
   * Printing what `FromHex` read gives the text back with every digit in
   * lowercase: this fixes the bytes that text in any mix of cases decodes to.
   */
  lemma {:induction false} ToHexFromHex(s: string)
    requires FromHex(s).Some?
    ensures ToHex(FromHex(s).value) == seq(|s|, i requires 0 <= i < |s| && IsHexDigit(s[i]) => LowerChar(s[i]))
  {
    if |s| > 0 {
      var rest := s[2..];
      ToHexFromHex(rest);
      var bs := FromHex(s).value;
      var b := DigitValue(s[0]) * 16 + DigitValue(s[1]);
      assert bs == [b] + FromHex(rest).value;
      assert b / 16 == DigitValue(s[0]) && b % 16 == DigitValue(s[1]);
      LowerDigitOfValue(s[0]);
      LowerDigitOfValue(s[1]);
      assert bs[1..] == FromHex(rest).value;
    }
  }

  /** Lowercase hex text is exactly what `ToHex` prints for the bytes it decodes to. */
  lemma LowerHexIsPrinted(s: string)
    requires FromHex(s).Some? && forall i :: 0 <= i < |s| ==> IsLowerHexDigit(s[i])
    ensures ToHex(FromHex(s).value) == s
  {
    ToHexFromHex(s);
  }

  /** Two byte strings with the same hex text are equal. */
  lemma ToHexInjective(a: seq<Byte>, b: seq<Byte>)
    requires ToHex(a) == ToHex(b)
    ensures a == b
  {
    FromHexToHex(a);
    FromHexToHex(b);
  }
}
