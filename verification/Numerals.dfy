/** Numbers written in decimal or hexadecimal, and that each reads back. */
module Numerals {
  import opened Wrappers
  import opened Utf8

  /** The value of a hexadecimal digit in either case, given as a byte or a code point. */
  function HexValue(code: int): (v: Option<Byte>)
    ensures v.Some? ==> v.value < 16
  {
    if 0x30 <= code <= 0x39 then Some(code - 0x30)
    else if 0x61 <= code <= 0x66 then Some(code - 0x61 + 10)
    else if 0x41 <= code <= 0x46 then Some(code - 0x41 + 10)
    else None
  }

  /** The code of a hexadecimal digit, in either case. */
  function Digit(v: Byte, upper: bool): Byte
    requires v < 16
  {
    if v < 10 then 0x30 + v else if upper then 0x41 + v - 10 else 0x61 + v - 10
  }

  lemma DigitReads(v: Byte, upper: bool)
    requires v < 16
    ensures HexValue(Digit(v, upper)) == Some(v)
  {
  }

  function DigitChar(n: nat): char
    requires n < 16
  {
    Digit(n, false) as char
  }

  function Numeral(n: nat, base: nat): (s: string)
    requires base == 10 || base == 16
    ensures s != ""
  {
    if n < base then [DigitChar(n)] else Numeral(n / base, base) + [DigitChar(n % base)]
  }

  /** A digit's value, and 16 for anything else. */
  function DigitOf(c: char): (v: nat)
    ensures v <= 16
  {
    var value := HexValue(c as int);
    if value.Some? then value.value else 16
  }

  function ValueOf(s: string, base: nat): nat {
    if s == "" then 0 else ValueOf(s[..|s| - 1], base) * base + DigitOf(s[|s| - 1])
  }

  lemma DigitCharReads(n: nat)
    requires n < 16
    ensures DigitOf(DigitChar(n)) == n
  {
    DigitReads(n, false);
  }

  lemma {:induction false} NumeralReads(n: nat, base: nat)
    requires base == 10 || base == 16
    ensures ValueOf(Numeral(n, base), base) == n
  {
    if n < base {
      DigitCharReads(n);
      assert ValueOf("", base) == 0;
      assert [DigitChar(n)][..0] == "";
    } else {
      NumeralReads(n / base, base);
      DigitCharReads(n % base);
      var (s, high) := (Numeral(n, base), Numeral(n / base, base));
      assert s[..|s| - 1] == high && s[|s| - 1] == DigitChar(n % base);
      assert if base == 10 then n / 10 * 10 + n % 10 == n else n / 16 * 16 + n % 16 == n;
    }
  }

  lemma {:induction false} NumeralHasNo(n: nat, base: nat, c: char)
    requires (base == 10 || base == 16) && DigitOf(c) == 16
    ensures c !in Numeral(n, base)
  {
    DigitCharReads(n % base);
    if n >= base { NumeralHasNo(n / base, base, c); }
  }
}
