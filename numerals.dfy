/**
 * JavaScript's `Number.prototype.toString(radix)` on non-negative integers, its inverse
 * (reading a numeral back in the same radix) and `String.prototype.padStart`, for the
 * two radices the sources use: 10 (template literals) and 16 (hex ids and codepoints).
 */
module Numerals {

  /** Decimal, as a template literal writes a number, and hexadecimal, as `toString(16)` does. */
  type Radix = r: nat | r == 10 || r == 16 witness 10

  /** An element of a `Uint8Array`. */
  type Byte = b: nat | b < 256

  // Multiplication, division and remainder by the radix.  Each is written per radix, so
  // that the arithmetic is by a constant.

  function Scale(v: nat, radix: Radix): nat {
    if radix == 10 then v * 10 else v * 16
  }

  function Quot(n: nat, radix: Radix): (q: nat)
    ensures n >= radix ==> 1 <= q < n
  {
    if radix == 10 then n / 10 else n / 16
  }

  function Rem(n: nat, radix: Radix): (m: nat)
    ensures m < radix && Scale(Quot(n, radix), radix) + m == n
  {
    if radix == 10 then n % 10 else n % 16
  }

  lemma QuotRemOfScale(v: nat, d: nat, radix: Radix)
    requires d < radix
    ensures Quot(Scale(v, radix) + d, radix) == v && Rem(Scale(v, radix) + d, radix) == d
  {
  }

  lemma ScaleAtLeastRadix(v: nat, radix: Radix)
    requires v >= 1
    ensures Scale(v, radix) >= radix
  {
  }

  /** The lower-case digit character for `d`, as `toString` writes it. */
  function DigitChar(d: nat): (c: char)
    requires d < 16
    ensures '0' <= c <= '9' || 'a' <= c <= 'f'
    ensures DigitValue(c) == d
  {
    if d < 10 then ('0' as int + d) as char else ('a' as int + d - 10) as char
  }

  /** `c` is a digit of the given radix, written in lower case. */
  predicate IsDigit(c: char, radix: Radix) {
    ('0' <= c <= '9' && c as int - '0' as int < radix) ||
    ('a' <= c <= 'f' && c as int - 'a' as int + 10 < radix)
  }

  /** The numeric value of a digit character (0 for a character that is no digit). */
  function DigitValue(c: char): (v: nat)
    ensures v < 16
  {
    if '0' <= c <= '9' then c as int - '0' as int
    else if 'a' <= c <= 'f' then c as int - 'a' as int + 10
    else 0
  }

  lemma DigitCharOfValue(c: char, radix: Radix)
    requires IsDigit(c, radix)
    ensures DigitValue(c) < radix && DigitChar(DigitValue(c)) == c
  {
  }

  /** `n.toString(radix)`: the digits of `n`, most significant first. */
  function Digits(n: nat, radix: Radix): (s: string)
    ensures |s| >= 1
    decreases n
  {
    if n < radix then [DigitChar(n)] else Digits(Quot(n, radix), radix) + [DigitChar(Rem(n, radix))]
  }

  /** The number a string of digits denotes in the given radix, most significant digit first. */
  function Value(s: string, radix: Radix): nat
    decreases |s|
  {
    if s == [] then 0 else Scale(Value(s[..|s| - 1], radix), radix) + DigitValue(s[|s| - 1])
  }

  /**
   * A canonical numeral: at least one digit, every character a lower-case digit of the
   * radix, and no leading zero unless the numeral is the single digit `0`.
   */
  predicate IsNumeral(s: string, radix: Radix) {
    |s| >= 1 &&
    (forall i :: 0 <= i < |s| ==> IsDigit(s[i], radix)) &&
    (|s| > 1 ==> s[0] != '0')
  }

  /** `toString` writes canonical numerals: lower-case digits without leading zeros. */
  lemma {:induction false} DigitsIsNumeral(n: nat, radix: Radix)
    ensures IsNumeral(Digits(n, radix), radix)
    ensures n > 0 ==> Digits(n, radix)[0] != '0'
    decreases n
  {
    if n >= radix {
      var q := Quot(n, radix);
      DigitsIsNumeral(q, radix);
      var s, init := Digits(n, radix), Digits(q, radix);
      assert s == init + [DigitChar(Rem(n, radix))];
      assert s[0] == init[0];
      forall i | 0 <= i < |s| ensures IsDigit(s[i], radix) {
        if i < |init| {
          assert s[i] == init[i];
        }
      }
    }
  }

  /** Reading `n.toString(radix)` back in the same radix gives `n`. */
  lemma {:induction false} ValueOfDigits(n: nat, radix: Radix)
    ensures Value(Digits(n, radix), radix) == n
    decreases n
  {
    var s := Digits(n, radix);
    if n < radix {
      assert s[..0] == [];
    } else {
      var q := Quot(n, radix);
      ValueOfDigits(q, radix);
      assert s[..|s| - 1] == Digits(q, radix);
    }
  }

  /** Different numbers have different numerals. */
  lemma DigitsInjective(m: nat, n: nat, radix: Radix)
    requires Digits(m, radix) == Digits(n, radix)
    ensures m == n
  {
    ValueOfDigits(m, radix);
    ValueOfDigits(n, radix);
  }

  /** A numeral whose leading digit is not zero denotes a positive number. */
  lemma {:induction false} ValuePositive(s: string, radix: Radix)
    requires |s| >= 1 && IsDigit(s[0], radix) && s[0] != '0'
    ensures Value(s, radix) >= 1
    decreases |s|
  {
    if |s| == 1 {
      assert s[..0] == [];
    } else {
      ValuePositive(s[..|s| - 1], radix);
    }
  }

  /** Every canonical numeral is what `toString` writes for the number it denotes. */
  lemma {:induction false} DigitsOfValue(s: string, radix: Radix)
    requires IsNumeral(s, radix)
    ensures Digits(Value(s, radix), radix) == s
    decreases |s|
  {
    var last := s[|s| - 1];
    DigitCharOfValue(last, radix);
    if |s| == 1 {
      assert s[..0] == [];
    } else {
      var init := s[..|s| - 1];
      NumeralInit(s, radix);
      DigitsOfValue(init, radix);
      ValuePositive(init, radix);
      var v, d := Value(init, radix), DigitValue(last);
      assert Value(s, radix) == Scale(v, radix) + d;
      DigitsAppend(v, d, radix);
      assert s == init + [last];
    }
  }

  /** Dropping the last digit of a numeral of two or more digits leaves a numeral. */
  lemma NumeralInit(s: string, radix: Radix)
    requires IsNumeral(s, radix) && |s| > 1
    ensures IsNumeral(s[..|s| - 1], radix) && s[..|s| - 1][0] == s[0]
  {
    var init := s[..|s| - 1];
    forall i | 0 <= i < |init| ensures IsDigit(init[i], radix) {
      assert init[i] == s[i];
    }
  }

  /** Appending digit `d` to a positive number's numeral scales it by the radix and adds `d`. */
  lemma DigitsAppend(v: nat, d: nat, radix: Radix)
    requires v >= 1 && d < radix
    ensures Digits(Scale(v, radix) + d, radix) == Digits(v, radix) + [DigitChar(d)]
  {
    ScaleAtLeastRadix(v, radix);
    QuotRemOfScale(v, d, radix);
  }

  /** `s.padStart(width, fill)`: `s` preceded by enough copies of `fill` to reach `width`. */
  function PadStart(s: string, width: nat, fill: char): (r: string)
    ensures |r| == if |s| >= width then |s| else width
    ensures r[|r| - |s|..] == s
    ensures forall i :: 0 <= i < |r| - |s| ==> r[i] == fill
  {
    if |s| >= width then s else seq(width - |s|, _ => fill) + s
  }

  /**
   * Two lower-case hex digits for a byte, high nibble first, which read back as the byte.
   * `ByteHexIsPaddedHex` shows this is `b.toString(16).padStart(2, '0')`.
   */
  function ByteHex(b: Byte): (r: string)
    ensures |r| == 2 && IsDigit(r[0], 16) && IsDigit(r[1], 16)
    ensures DigitValue(r[0]) * 16 + DigitValue(r[1]) == b
  {
    [DigitChar(b / 16), DigitChar(b % 16)]
  }

  /** `b.toString(16).padStart(2, '0')` is exactly `ByteHex(b)`. */
  lemma ByteHexIsPaddedHex(b: Byte)
    ensures PadStart(Digits(b, 16), 2, '0') == ByteHex(b)
  {
    var hi, lo := Quot(b, 16), Rem(b, 16);
    if b < 16 {
      assert Digits(b, 16) == [DigitChar(b)];
      assert hi == 0 && lo == b;
      assert PadStart([DigitChar(b)], 2, '0') == ['0', DigitChar(b)];
    } else {
      assert hi < 16;
      assert Digits(hi, 16) == [DigitChar(hi)];
      assert Digits(b, 16) == [DigitChar(hi), DigitChar(lo)];
    }
  }
}
