/**
 * Hexadecimal text for byte strings: `bytes.hex()` (and `hexdigest()`) on the
 * way out, `bytes.fromhex` on the way back.
 */
module HexText {
  import opened Wrappers
  import opened Primitives

  const Digits: string := "0123456789abcdef"

  /** `bytes.hex()`: two lower-case hexadecimal digits per byte. */
  function Hex(bs: seq<byte>): (s: string)
    ensures |s| == 2 * |bs|
  {
    if bs == [] then ""
    else [Digits[bs[0] as int / 16], Digits[bs[0] as int % 16]] + Hex(bs[1..])
  }

  /** The value of a hexadecimal digit in either case, or None. */
  function DigitValue(c: char): (v: Option<int>)
    ensures v.Some? ==> 0 <= v.value < 16
  {
    if '0' <= c <= '9' then Some(c as int - '0' as int)
    else if 'a' <= c <= 'f' then Some(c as int - 'a' as int + 10)
    else if 'A' <= c <= 'F' then Some(c as int - 'A' as int + 10)
    else None
  }

  /** ASCII whitespace, which `bytes.fromhex` skips between byte pairs. */
  predicate IsAsciiSpace(c: char)
  {
    c == ' ' || c == '\t' || c == '\n' || c == '\r' || c == 11 as char || c == 12 as char
  }

  /**
   * `bytes.fromhex`: whitespace between pairs is skipped; anything else must
   * come as two hexadecimal digits; None where Python raises ValueError.
   */
  function FromHex(s: string): Option<seq<byte>>
    decreases |s|
  {
    if s == [] then Some([])
    else if IsAsciiSpace(s[0]) then FromHex(s[1..])
    else if |s| < 2 || DigitValue(s[0]).None? || DigitValue(s[1]).None? then None
    else match FromHex(s[2..])
      case None => None
      case Some(rest) => Some([(DigitValue(s[0]).value * 16 + DigitValue(s[1]).value) as byte] + rest)
  }

  lemma DigitsRoundTrip(n: int)
    requires 0 <= n < 16
    ensures DigitValue(Digits[n]) == Some(n)
  {
  }

  /** `bytes.fromhex` reads two leading digits as one byte and goes on with the rest. */
  lemma FromHexPair(c0: char, c1: char, rest: string)
    requires DigitValue(c0).Some? && DigitValue(c1).Some?
    ensures FromHex([c0, c1] + rest) ==
      match FromHex(rest)
      case None => None
      case Some(tail) => Some([(DigitValue(c0).value * 16 + DigitValue(c1).value) as byte] + tail)
  {
    var s := [c0, c1] + rest;
    assert s[0] == c0 && s[1] == c1 && s[2..] == rest;
    assert !IsAsciiSpace(c0);
  }

  /** Decoding the hex text of a non-empty byte string reads its first byte, then the text of the rest. */
  lemma FromHexStep(bs: seq<byte>)
    requires bs != []
    ensures FromHex(Hex(bs)) ==
      match FromHex(Hex(bs[1..]))
      case None => None
      case Some(tail) => Some([bs[0]] + tail)
  {
    var hi, lo := bs[0] as int / 16, bs[0] as int % 16;
    DigitsRoundTrip(hi);
    DigitsRoundTrip(lo);
    assert Hex(bs) == [Digits[hi], Digits[lo]] + Hex(bs[1..]);
    FromHexPair(Digits[hi], Digits[lo], Hex(bs[1..]));
    assert hi * 16 + lo == bs[0] as int;
  }

  /** `bytes.fromhex(bs.hex()) == bs`. */
  lemma {:induction false} FromHexOfHex(bs: seq<byte>)
    ensures FromHex(Hex(bs)) == Some(bs)
  {
    if bs != [] {
      FromHexStep(bs);
      FromHexOfHex(bs[1..]);
      assert [bs[0]] + bs[1..] == bs;
    }
  }

  /** Distinct byte strings have distinct hex text. */
  lemma HexInjective(xs: seq<byte>, ys: seq<byte>)
    ensures Hex(xs) == Hex(ys) ==> xs == ys
  {
    FromHexOfHex(xs);
    FromHexOfHex(ys);
  }
}
