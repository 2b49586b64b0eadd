/** Decimal numerals: `std::to_string` for sizes and statuses, `std::from_chars` into a 64-bit size. */
module Decimal {
  import opened Prelude

  const SIZE_LIMIT: nat := 0x1_0000_0000_0000_0000

  predicate IsDigit(c: char) {
    '0' <= c <= '9'
  }

  predicate AllDigits(s: string) {
    forall i :: 0 <= i < |s| ==> IsDigit(s[i])
  }

  function DigitValue(c: char): (d: nat)
    requires IsDigit(c)
    ensures d < 10
  {
    c as int - '0' as int
  }

  function Digit(d: nat): (c: char)
    requires d < 10
    ensures IsDigit(c) && DigitValue(c) == d
  {
    (d + '0' as int) as char
  }

  function ToDecimal(n: nat): (s: string)
    ensures s != "" && AllDigits(s)
  {
    if n < 10 then [Digit(n)] else ToDecimal(n / 10) + [Digit(n % 10)]
  }

  function Value(s: string): nat
    requires AllDigits(s)
  {
    if s == "" then 0 else 10 * Value(s[..|s| - 1]) + DigitValue(s[|s| - 1])
  }

  /** `from_chars` on a text of digits: the value, unless it does not fit in 64 bits. */
  function FromDecimal(s: string): (r: Option<nat>)
    requires AllDigits(s)
    ensures r.Some? <==> Value(s) < SIZE_LIMIT
    ensures r.Some? ==> r.value == Value(s)
  {
    if Value(s) < SIZE_LIMIT then Some(Value(s)) else None
  }

  /** Printing and reading a number gives the number back. */
  lemma {:induction false} PrintThenRead(n: nat)
    ensures Value(ToDecimal(n)) == n
  {
    if n < 10 {
      assert ToDecimal(n)[..0] == "";
    } else {
      PrintThenRead(n / 10);
      assert ToDecimal(n)[..|ToDecimal(n)| - 1] == ToDecimal(n / 10);
    }
  }

  /** Every status from 100 to 999 prints as three digits. */
  lemma ThreeDigits(n: nat)
    requires 100 <= n <= 999
    ensures |ToDecimal(n)| == 3
  {
    assert ToDecimal(n / 10) == ToDecimal(n / 10 / 10) + [Digit(n / 10 % 10)];
  }

  /** Reading a numeral without superfluous zeros and printing the number gives the numeral back. */
  lemma {:induction false} ReadThenPrint(s: string)
    requires s != "" && AllDigits(s) && (s[0] != '0' || |s| == 1)
    ensures ToDecimal(Value(s)) == s
    ensures |s| > 1 ==> Value(s) >= 10
  {
    var front, last := s[..|s| - 1], s[|s| - 1];
    if |s| == 1 {
      assert Value(front) == 0;
      assert s == [last];
    } else {
      ReadThenPrint(front);
      if |front| == 1 {
        assert Value(front[..0]) == 0;
        assert front == [s[0]];
      }
      assert Value(front) >= 1;
      assert Value(s) / 10 == Value(front) && Value(s) % 10 == DigitValue(last);
      assert s == front + [last];
    }
  }
}
