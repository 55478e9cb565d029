/** internal/util/digits.go: the number of characters of an integer's
    decimal form, the sign included. */
module Digits {

  /** Go's `int` on the 64-bit platforms the program is built for. */
  newtype int64 = x: int | -0x8000_0000_0000_0000 <= x < 0x8000_0000_0000_0000

  /** 10 to the power k. */
  function Pow10(k: nat): (p: nat)
    ensures p >= 1
  {
    if k == 0 then 1 else 10 * Pow10(k - 1)
  }

  /** Number of decimal digits of a positive number (0 has none here). */
  function PositiveDigits(n: nat): nat
  {
    if n == 0 then 0 else 1 + PositiveDigits(n / 10)
  }

  /** The value CountDigits computes: 1 for zero, the digit count for a
      positive number, one more (the minus sign) for a negative one. */
  function DigitCount(n: int): nat
  {
    if n == 0 then 1
    else if n < 0 then 1 + PositiveDigits(-n)
    else PositiveDigits(n)
  }

  /** The source's loop: strip the sign, then divide by ten until nothing is
      left. Go's `/` truncates toward zero, which coincides with Dafny's `/`
      here because n is non-negative inside the loop. */
  method CountDigits(n: int) returns (count: int)
    ensures count == DigitCount(n)
    ensures count >= 1
  {
    if n == 0 {
      return 1;
    }
    var m := n;
    count := 0;
    if m < 0 {
      m := -m;
      count := count + 1;
    }
    while m != 0
      invariant m >= 0
      invariant count + PositiveDigits(m) == DigitCount(n)
      decreases m
    {
      m := m / 10;
      count := count + 1;
    }
  }

  lemma {:induction false} PositiveDigitsBounds(n: nat)
    requires n > 0
    ensures PositiveDigits(n) >= 1
    ensures Pow10(PositiveDigits(n) - 1) <= n < Pow10(PositiveDigits(n))
  {
    if n >= 10 {
      PositiveDigitsBounds(n / 10);
    }
  }

  /** For a positive n the count c is the unique width with
      10^(c-1) <= n < 10^c. */
  lemma DigitCountBounds(n: int)
    requires n > 0
    ensures DigitCount(n) >= 1
    ensures Pow10(DigitCount(n) - 1) <= n < Pow10(DigitCount(n))
  {
    PositiveDigitsBounds(n);
  }

  /** Zero is written with one digit. */
  lemma DigitCountZero()
    ensures DigitCount(0) == 1
  {
  }

  /** A negative number takes one character more than its magnitude: the sign. */
  lemma DigitCountNegative(n: int)
    requires n < 0
    ensures DigitCount(n) == 1 + DigitCount(-n)
  {
  }

  /** Every count is at least one. */
  lemma {:induction false} DigitCountPositive(n: int)
    ensures DigitCount(n) >= 1
  {
    if n > 0 {
      PositiveDigitsBounds(n);
    } else if n < 0 {
      PositiveDigitsBounds(-n);
    }
  }

  lemma {:induction false} PositiveDigitsMonotone(a: nat, b: nat)
    requires a <= b
    ensures PositiveDigits(a) <= PositiveDigits(b)
  {
    if a != 0 {
      PositiveDigitsMonotone(a / 10, b / 10);
    }
  }

  /** Counting digits is monotone on the non-negative numbers; in particular
      an index below a length never needs more digits than the length. */
  lemma DigitCountMonotone(a: int, b: int)
    requires 0 <= a <= b
    ensures DigitCount(a) <= DigitCount(b)
  {
    if a == 0 {
      DigitCountPositive(b);
    } else {
      PositiveDigitsMonotone(a, b);
    }
  }

  lemma {:induction false} PositiveDigitsBelow(n: nat, k: nat)
    requires n < Pow10(k)
    ensures PositiveDigits(n) <= k
  {
    if n > 0 {
      PositiveDigitsBelow(n / 10, k - 1);
    }
  }

  /** A 64-bit integer takes at most 20 characters, at most 19 when it is not
      negative. */
  lemma DigitCountInt64(n: int64)
    ensures DigitCount(n as int) <= 20
    ensures n >= 0 ==> DigitCount(n as int) <= 19
  {
    assert Pow10(4) == 10000;
    assert Pow10(8) == 100000000;
    assert Pow10(12) == 1000000000000;
    assert Pow10(16) == 10000000000000000;
    assert Pow10(19) == 10000000000000000000;
    if n > 0 {
      PositiveDigitsBelow(n as int, 19);
    } else if n < 0 {
      PositiveDigitsBelow(-(n as int), 19);
    }
  }
}
