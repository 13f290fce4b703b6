/**
  Hexadecimal digits and fields: what `int(field, 16)` reads from an SREC
  line, and the fixed-width and minimal-width renderings the output uses.
  Only plain hexadecimal digits are accepted (see README, "Left out").
 */
module Hex {
  import opened Results

  /** A byte value, 0..255. */
  type Byte = b: nat | b < 256

  function Pow16(n: nat): (r: nat)
    ensures r > 0
  {
    if n == 0 then 1 else 16 * Pow16(n - 1)
  }

  predicate IsHexDigit(c: char) {
    '0' <= c <= '9' || 'a' <= c <= 'f' || 'A' <= c <= 'F'
  }

  predicate AllHexDigits(s: string) {
    forall i :: 0 <= i < |s| ==> IsHexDigit(s[i])
  }

  /** Digits as `%X` writes them: decimal digits and upper-case letters only. */
  predicate UpperDigits(s: string) {
    forall i :: 0 <= i < |s| ==> '0' <= s[i] <= '9' || 'A' <= s[i] <= 'F'
  }

  /** Digits as `hex()` writes them: decimal digits and lower-case letters only. */
  predicate LowerDigits(s: string) {
    forall i :: 0 <= i < |s| ==> '0' <= s[i] <= '9' || 'a' <= s[i] <= 'f'
  }

  /** The digits of `s` in the case `upper` selects. */
  predicate InCase(s: string, upper: bool) {
    if upper then UpperDigits(s) else LowerDigits(s)
  }

  /** The value of one hexadecimal digit, in either case. */
  function DigitValue(c: char): (r: Option<nat>)
    ensures r.Some? <==> IsHexDigit(c)
    ensures r.Some? ==> r.value < 16
  {
    if '0' <= c <= '9' then Some(c as nat - '0' as nat)
    else if 'a' <= c <= 'f' then Some(c as nat - 'a' as nat + 10)
    else if 'A' <= c <= 'F' then Some(c as nat - 'A' as nat + 10)
    else None
  }

  /** The digit for `d`, upper case (`%X`) or lower case (`hex()`). */
  function DigitChar(d: nat, upper: bool): (c: char)
    requires d < 16
    ensures DigitValue(c) == Some(d)
    ensures d >= 1 ==> c != '0'
    ensures InCase([c], upper)
  {
    if d < 10 then ('0' as int + d) as char
    else if upper then ('A' as int + d - 10) as char
    else ('a' as int + d - 10) as char
  }

  /** The value of a run of digits, most significant first; None if any is not a digit. */
  function DigitsValue(s: string): (r: Option<nat>)
    ensures r.Some? <==> AllHexDigits(s)
    ensures r.Some? ==> r.value < Pow16(|s|)
  {
    if |s| == 0 then Some(0)
    else
      match DigitsValue(s[..|s| - 1])
      case None => None
      case Some(v) =>
        match DigitValue(s[|s| - 1])
        case None => None
        case Some(d) => Some(16 * v + d)
  }

  /** `int(s, 16)` on a field: an empty field or a non-digit is a failure. */
  function ParseHex(s: string): (r: Option<nat>)
    ensures r.Some? <==> |s| > 0 && AllHexDigits(s)
    ensures r.Some? ==> r.value < Pow16(|s|)
  {
    if |s| == 0 then None else DigitsValue(s)
  }

  /** `n` in exactly `width` digits (the low `width` digits when `n` is wider). */
  function HexOf(n: nat, width: nat, upper: bool): (s: string)
    ensures |s| == width
    ensures AllHexDigits(s)
    ensures InCase(s, upper)
  {
    if width == 0 then [] else HexOf(n / 16, width - 1, upper) + [DigitChar(n % 16, upper)]
  }

  lemma {:induction false} HexOfRoundTrip(n: nat, width: nat, upper: bool)
    requires n < Pow16(width)
    ensures DigitsValue(HexOf(n, width, upper)) == Some(n)
    ensures width > 0 ==> ParseHex(HexOf(n, width, upper)) == Some(n)
  {
    if width > 0 {
      var s := HexOf(n, width, upper);
      var init := HexOf(n / 16, width - 1, upper);
      assert s == init + [DigitChar(n % 16, upper)];
      assert n / 16 < Pow16(width - 1);
      HexOfRoundTrip(n / 16, width - 1, upper);
      assert s[..|s| - 1] == init && s[|s| - 1] == DigitChar(n % 16, upper);
      assert n == 16 * (n / 16) + n % 16;
    }
  }

  /** `n` with no leading zeros, as Python's `hex()` writes it after the `0x`. */
  function MinimalHex(n: nat, upper: bool): (s: string)
    ensures |s| > 0
    ensures AllHexDigits(s)
    ensures InCase(s, upper)
  {
    if n < 16 then [DigitChar(n, upper)] else MinimalHex(n / 16, upper) + [DigitChar(n % 16, upper)]
  }

  lemma {:induction false} MinimalHexRoundTrip(n: nat, upper: bool)
    ensures ParseHex(MinimalHex(n, upper)) == Some(n)
    ensures n > 0 ==> MinimalHex(n, upper)[0] != '0'
    ensures n == 0 ==> MinimalHex(n, upper) == "0"
  {
    if n >= 16 {
      var s := MinimalHex(n, upper);
      MinimalHexRoundTrip(n / 16, upper);
      assert s[..|s| - 1] == MinimalHex(n / 16, upper);
    }
  }
}
