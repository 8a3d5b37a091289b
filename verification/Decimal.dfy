// Decimal numerals as `write!` prints unsigned integers, and reading them back.

module Decimal {
  function Digit(d: nat): char
    requires d < 10
  {
    (d + 48) as char
  }

  predicate IsDigit(c: char) {
    48 <= c as int <= 57
  }

  function DigitValue(c: char): nat
    requires IsDigit(c)
  {
    c as int - 48
  }

  function Numeral(n: nat): (s: string)
    ensures s != [] && forall c :: c in s ==> IsDigit(c)
  {
    if n < 10 then [Digit(n)] else Numeral(n / 10) + [Digit(n % 10)]
  }

  /** The value of the longest run of digits, continuing from `value`, and what follows it. */
  function ReadDigits(s: string, value: nat): (nat, string) {
    if s != [] && IsDigit(s[0]) then ReadDigits(s[1..], 10 * value + DigitValue(s[0])) else (value, s)
  }

  lemma {:induction false} DigitsContinue(n: nat, rest: string)
    ensures ReadDigits(Numeral(n) + rest, 0) == ReadDigits(rest, n)
    decreases n
  {
    var d := Digit(n % 10);
    assert ([d] + rest)[1..] == rest;
    if n < 10 {
      assert Numeral(n) + rest == [d] + rest;
    } else {
      DigitsContinue(n / 10, [d] + rest);
      assert Numeral(n) + rest == Numeral(n / 10) + ([d] + rest);
    }
  }

  /** The digits, spelled out. */
  lemma DigitsSpelled(d: nat)
    requires d < 10
    ensures Digit(d) == "0123456789"[d]
  {
  }

  /** A numeral followed by anything but a digit reads back as the number. */
  lemma NumeralReadBack(n: nat, rest: string)
    requires rest == [] || !IsDigit(rest[0])
    ensures ReadDigits(Numeral(n) + rest, 0) == (n, rest)
  {
    DigitsContinue(n, rest);
  }
}
