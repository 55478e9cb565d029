/** internal/util/format.go: PaddingZero(n, width) is Go's
    fmt.Sprintf("%0<width>d", n), the decimal form of n padded on the left
    with zeros (after the sign) to at least `width` characters. */
module Format {
  import opened Digits
  import opened Lex

  /** The precondition keeps widths in the range where fmt parses the width
      literally. */
  const MaxFmtWidth := 1000000

  predicate IsDigit(c: char)
  {
    '0' <= c <= '9'
  }

  predicate AllDigits(s: string)
  {
    forall i :: 0 <= i < |s| ==> IsDigit(s[i])
  }

  function DigitChar(d: nat): (c: char)
    requires d < 10
  {
    (('0' as int) + d) as char
  }

  function DigitValue(c: char): nat
    requires IsDigit(c)
  {
    (c as int) - ('0' as int)
  }

  /** k copies of c (none when k is not positive). */
  function Repeat(c: char, k: int): string
  {
    seq(if k > 0 then k else 0, _ => c)
  }

  /** The decimal form of a non-negative number, without leading zeros;
      its length is the digit count of internal/util/digits.go. */
  function Decimal(n: nat): (s: string)
    ensures |s| == DigitCount(n)
    ensures AllDigits(s)
  {
    if n < 10 then [DigitChar(n)] else Decimal(n / 10) + [DigitChar(n % 10)]
  }

  /** The decimal form of any integer, as `%d` prints it. */
  function Signed(n: int): (s: string)
    ensures |s| == DigitCount(n)
  {
    if n < 0 then "-" + Decimal(-n) else Decimal(n)
  }

  /** `%0<width>d`: a negative width in the format string ("%0-3d") turns
      into a left-justified field padded with spaces, since Go drops the
      zero flag when the minus flag is present. */
  function PaddingZero(n: int, width: int): (s: string)
    requires -MaxFmtWidth <= width <= MaxFmtWidth
    ensures |s| == if width < 0 && -width > DigitCount(n) then -width
                   else if width > DigitCount(n) then width
                   else DigitCount(n)
  {
    if width < 0 then Signed(n) + Repeat(' ', -width - |Signed(n)|)
    else if n < 0 then "-" + Repeat('0', width - |Signed(n)|) + Decimal(-n)
    else Repeat('0', width - |Signed(n)|) + Decimal(n)
  }

  /** A string of digits read as a decimal number (leading zeros allowed). */
  function Parse(s: string): nat
    requires AllDigits(s)
  {
    if s == [] then 0 else 10 * Parse(s[..|s| - 1]) + DigitValue(s[|s| - 1])
  }

  lemma {:induction false} ParseDecimal(n: nat)
    ensures Parse(Decimal(n)) == n
  {
    if n >= 10 {
      var s := Decimal(n);
      assert s[..|s| - 1] == Decimal(n / 10);
      ParseDecimal(n / 10);
    }
  }

  lemma {:induction false} ParseZeros(k: nat)
    ensures AllDigits(Repeat('0', k)) && Parse(Repeat('0', k)) == 0
  {
    if k > 0 {
      assert Repeat('0', k)[..k - 1] == Repeat('0', k - 1);
      ParseZeros(k - 1);
    }
  }

  /** Leading zeros do not change the value (a count below one adds none). */
  lemma {:induction false} ParseLeadingZeros(k: int, s: string)
    requires AllDigits(s)
    ensures AllDigits(Repeat('0', k) + s) && Parse(Repeat('0', k) + s) == Parse(s)
  {
    var t := Repeat('0', k) + s;
    if s == [] {
      var z: nat := if k > 0 then k else 0;
      assert t == Repeat('0', z);
      ParseZeros(z);
    } else {
      assert t[..|t| - 1] == Repeat('0', k) + s[..|s| - 1];
      ParseLeadingZeros(k, s[..|s| - 1]);
    }
  }

  /** Reading a digit string from the front: the first digit weighs 10^(n-1). */
  /** The arithmetic step of ParseFront: with s = init + [last] and
      s = [first] + tail, both readings agree. */
  lemma FrontStep(ps: int, pinit: int, pmid: int, ptail: int, d0: int, last: int, p: int, q: int)
    requires ps == 10 * pinit + last && pinit == d0 * p + pmid
    requires ptail == 10 * pmid + last && q == 10 * p
    ensures ps == d0 * q + ptail
  {
    assert 10 * (d0 * p) == d0 * (10 * p);
  }

  lemma {:induction false} ParseFront(s: string)
    requires AllDigits(s) && |s| > 0
    ensures Parse(s) == DigitValue(s[0]) * Pow10(|s| - 1) + Parse(s[1..])
  {
    if |s| > 1 {
      var init, tail := s[..|s| - 1], s[1..];
      ParseFront(init);
      assert init[0] == s[0] && |init| - 1 == |s| - 2;
      assert tail[..|tail| - 1] == init[1..] && tail[|tail| - 1] == s[|s| - 1];
      FrontStep(Parse(s), Parse(init), Parse(init[1..]), Parse(tail), DigitValue(s[0]), DigitValue(s[|s| - 1]),
                Pow10(|s| - 2), Pow10(|s| - 1));
    } else {
      assert s[1..] == [];
    }
  }

  lemma {:induction false} ParseBound(s: string)
    requires AllDigits(s)
    ensures Parse(s) < Pow10(|s|)
  {
    if s != [] {
      ParseBound(s[..|s| - 1]);
    }
  }

  lemma LeadingDigitDecides(dx: nat, dy: nat, p: nat, rx: nat, ry: nat)
    requires dx < dy && rx < p
    ensures dx * p + rx < dy * p + ry
  {
    assert (dx + 1) * p <= dy * p;
  }

  /** Among digit strings of one length, string order is numeric order. */
  lemma {:induction false} DigitStringOrder(x: string, y: string)
    requires AllDigits(x) && AllDigits(y) && |x| == |y|
    ensures Less(x, y) <==> Parse(x) < Parse(y)
  {
    if |x| > 0 {
      ParseFront(x);
      ParseFront(y);
      ParseBound(x[1..]);
      ParseBound(y[1..]);
      var p := Pow10(|x| - 1);
      var dx, dy := DigitValue(x[0]), DigitValue(y[0]);
      if x[0] == y[0] {
        DigitStringOrder(x[1..], y[1..]);
      } else if x[0] < y[0] {
        LeadingDigitDecides(dx, dy, p, Parse(x[1..]), Parse(y[1..]));
      } else {
        LeadingDigitDecides(dy, dx, p, Parse(y[1..]), Parse(x[1..]));
      }
    }
  }

  /** For a non-negative n and a non-negative width the result is zero
      padding followed by the decimal form of n: only digits, the decimal
      form as its tail. */
  lemma PaddingZeroShape(n: int, width: int)
    requires n >= 0 && 0 <= width <= MaxFmtWidth
    ensures AllDigits(PaddingZero(n, width))
    ensures var s := PaddingZero(n, width);
      s[|s| - DigitCount(n)..] == Decimal(n) &&
      forall i :: 0 <= i < |s| - DigitCount(n) ==> s[i] == '0'
  {
    ParseLeadingZeros(width - |Signed(n)|, Decimal(n));
  }

  /** Padding never truncates: a width not above the digit count leaves the
      plain decimal form. */
  lemma PaddingZeroNoTruncation(n: int, width: int)
    requires -MaxFmtWidth <= width <= MaxFmtWidth
    requires -(DigitCount(n) as int) <= width <= DigitCount(n)
    ensures PaddingZero(n, width) == Signed(n)
  {
  }

  /** Parsing the padded form gives n back. */
  lemma ParsePaddingZero(n: int, width: int)
    requires n >= 0 && 0 <= width <= MaxFmtWidth
    ensures AllDigits(PaddingZero(n, width)) && Parse(PaddingZero(n, width)) == n
  {
    var k := width - |Signed(n)|;
    assert PaddingZero(n, width) == Repeat('0', k) + Decimal(n);
    ParseLeadingZeros(k, Decimal(n));
    ParseDecimal(n);
  }

  /** A padded negative number: a minus sign, zeros, then the decimal
      form of its magnitude. */
  lemma NegativePaddingForm(n: int, width: int)
    requires n < 0 && 0 <= width <= MaxFmtWidth
    ensures var s := PaddingZero(n, width);
      |s| > 0 && s[0] == '-' && s[1..] == Repeat('0', width - |Signed(n)|) + Decimal(-n)
  {
    var z := Repeat('0', width - |Signed(n)|) + Decimal(-n);
    assert PaddingZero(n, width) == "-" + z;
    assert ("-" + z)[1..] == z;
  }

  /** After the sign, a padded negative number reads as its magnitude. */
  lemma NegativePaddingMagnitude(n: int, width: int)
    requires n < 0 && 0 <= width <= MaxFmtWidth
    ensures var s := PaddingZero(n, width);
      |s| > 0 && s[0] == '-' && AllDigits(s[1..]) && Parse(s[1..]) == -n
  {
    NegativePaddingForm(n, width);
    ParseLeadingZeros(width - |Signed(n)|, Decimal(-n));
    ParseDecimal(-n);
  }

  /** With one non-negative width, different numbers give different strings. */
  lemma PaddingZeroInjective(a: int, b: int, width: int)
    requires 0 <= width <= MaxFmtWidth
    requires PaddingZero(a, width) == PaddingZero(b, width)
    ensures a == b
  {
    if a >= 0 && b >= 0 {
      ParsePaddingZero(a, width);
      ParsePaddingZero(b, width);
    } else if a < 0 && b < 0 {
      NegativePaddingMagnitude(a, width);
      NegativePaddingMagnitude(b, width);
    } else if a < 0 {
      NegativePaddingMagnitude(a, width);
      PaddingZeroShape(b, width);
    } else {
      NegativePaddingMagnitude(b, width);
      PaddingZeroShape(a, width);
    }
  }

  /** With a common width that fits both numbers, string order of the padded
      forms is the numeric order of the numbers. */
  lemma PaddingZeroOrder(a: int, b: int, width: int)
    requires 0 <= a && 0 <= b && width <= MaxFmtWidth
    requires DigitCount(a) <= width && DigitCount(b) <= width
    ensures |PaddingZero(a, width)| == |PaddingZero(b, width)| == width
    ensures Less(PaddingZero(a, width), PaddingZero(b, width)) <==> a < b
  {
    ParsePaddingZero(a, width);
    ParsePaddingZero(b, width);
    DigitStringOrder(PaddingZero(a, width), PaddingZero(b, width));
  }
}
