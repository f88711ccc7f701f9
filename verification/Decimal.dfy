/** Numbers as text. */
module Decimal {

  /** `std::to_string`, and `<<` on an unsigned number. */
  function Text(n: nat): (s: string)
    ensures s != [] && forall c :: c in s ==> '0' <= c <= '9'
  {
    var digit := [('0' as int + n % 10) as char];
    if n < 10 then digit else Text(n / 10) + digit
  }

  datatype Parsed = Number(value: nat) | NotANumber

  /** The value of one digit character, or the base when it is none. */
  function DigitValue(c: char, base: nat): (v: nat)
    requires base == 10 || base == 16
    ensures v <= base
  {
    if '0' <= c <= '9' then c as int - '0' as int
    else if base == 16 && 'a' <= c <= 'f' then c as int - 'a' as int + 10
    else if base == 16 && 'A' <= c <= 'F' then c as int - 'A' as int + 10
    else base
  }

  function Value(s: string, base: nat): Parsed
    requires base == 10 || base == 16
  {
    if s == [] then Number(0) else
    var before, digit := Value(s[..|s| - 1], base), DigitValue(s[|s| - 1], base);
    if before.NotANumber? || digit == base then NotANumber else Number(before.value * base + digit)
  }

  lemma {:induction false} TextReadsBack(n: nat)
    ensures Value(Text(n), 10) == Number(n)
  {
    var s := Text(n);
    if n >= 10 {
      TextReadsBack(n / 10);
      assert s[..|s| - 1] == Text(n / 10);
    } else {
      assert s[..0] == [];
    }
  }

  /** Three digits, the highest first. */
  lemma {:induction false} TextOfThree(n: nat, a: nat, b: nat, c: nat)
    requires 1 <= a <= 9 && b <= 9 && c <= 9 && n == 100 * a + 10 * b + c
    ensures Text(n) == [DIGITS[a], DIGITS[b], DIGITS[c]]
  {
    assert n / 10 == 10 * a + b && n % 10 == c && n / 10 / 10 == a && n / 10 % 10 == b;
    assert Text(a) == [DIGITS[a]] && Text(n / 10) == Text(a) + [DIGITS[b]];
  }

  const DIGITS: string := "0123456789"

  /** `std::hex`, and what people write. */
  function HexText(n: nat, upper: bool): (s: string)
    ensures s != []
  {
    var digit := [if upper then "0123456789ABCDEF"[n % 16] else "0123456789abcdef"[n % 16]];
    if n < 16 then digit else HexText(n / 16, upper) + digit
  }

  lemma {:induction false} HexReadsBack(n: nat, upper: bool)
    ensures Value(HexText(n, upper), 16) == Number(n)
  {
    var s := HexText(n, upper);
    HexDigit(n % 16, upper);
    if n >= 16 {
      HexReadsBack(n / 16, upper);
      assert s[..|s| - 1] == HexText(n / 16, upper);
    } else {
      assert s[..0] == [];
    }
  }

  lemma {:induction false} HexDigit(d: nat, upper: bool)
    requires d < 16
    ensures DigitValue("0123456789abcdef"[d], 16) == d && DigitValue("0123456789ABCDEF"[d], 16) == d
  {
  }

  /** A character that is no digit of the base makes the whole text no number. */
  lemma {:induction false} NonDigitRefused(s: string, base: nat, i: nat)
    requires (base == 10 || base == 16) && i < |s| && s[i] !in "0123456789"
    requires base == 10 || s[i] !in "abcdefABCDEF"
    ensures Value(s, base) == NotANumber
    decreases |s|
  {
    if i < |s| - 1 {
      NonDigitRefused(s[..|s| - 1], base, i);
    } else {
      NoDigit(s[i], base);
    }
  }

  lemma {:induction false} NoDigit(c: char, base: nat)
    requires (base == 10 || base == 16) && c !in "0123456789" && (base == 10 || c !in "abcdefABCDEF")
    ensures DigitValue(c, base) == base
  {
    DigitsAreIn(c);
  }

  lemma {:induction false} DigitsAreIn(c: char)
    ensures '0' <= c <= '9' ==> c in "0123456789"
    ensures 'a' <= c <= 'f' || 'A' <= c <= 'F' ==> c in "abcdefABCDEF"
  {
    if '0' <= c <= '9' { assert c == "0123456789"[c as int - '0' as int]; }
    if 'a' <= c <= 'f' { assert c == "abcdefABCDEF"[c as int - 'a' as int]; }
    if 'A' <= c <= 'F' { assert c == "abcdefABCDEF"[c as int - 'A' as int + 6]; }
  }
}
