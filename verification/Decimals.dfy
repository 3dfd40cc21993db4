/** Decimal numerals, as fmt prints unsigned integers and boost::lexical_cast reads them. */
module Decimals {

  function Digit(d: nat): char
    requires d < 10
  {
    '0' + d as char
  }

  predicate IsDigit(c: char) {
    '0' <= c <= '9'
  }

  function Dec(n: nat): (r: string)
    ensures r != "" && forall c | c in r :: IsDigit(c)
  {
    if n < 10 then [Digit(n)] else Dec(n / 10) + [Digit(n % 10)]
  }

  function DigitValue(c: char): nat
    requires IsDigit(c)
  {
    c as nat - '0' as nat
  }

  predicate Digits(s: string) {
    forall i | 0 <= i < |s| :: IsDigit(s[i])
  }

  function Value(s: string): nat
    requires Digits(s)
  {
    if s == "" then 0 else Value(s[..|s| - 1]) * 10 + DigitValue(s[|s| - 1])
  }

  lemma {:induction false} ValueOfDec(n: nat)
    ensures Digits(Dec(n)) && Value(Dec(n)) == n
  {
    if n >= 10 {
      ValueOfDec(n / 10);
      var r := Dec(n / 10);
      assert (r + [Digit(n % 10)])[..|r|] == r;
    } else {
      assert Dec(n)[..0] == "";
    }
  }

  lemma DecInjective(m: nat, n: nat)
    ensures Dec(m) == Dec(n) <==> m == n
  {
    ValueOfDec(m);
    ValueOfDec(n);
  }

  function Zeros(n: nat): string {
    seq(n, _ => '0')
  }

  lemma {:induction false} LeadingZeros(n: nat, s: string)
    requires Digits(s)
    ensures Digits(Zeros(n) + s) && Value(Zeros(n) + s) == Value(s)
    decreases n + |s|
  {
    var t := Zeros(n) + s;
    if s != "" {
      LeadingZeros(n, s[..|s| - 1]);
      assert t[..|t| - 1] == Zeros(n) + s[..|s| - 1];
    } else if n > 0 {
      LeadingZeros(n - 1, "");
      assert t[..|t| - 1] == Zeros(n - 1) + "";
    }
  }

  /** `{:0>width}`: filled with zeros from the left, never cut. */
  function Padded(n: nat, width: nat): string {
    Zeros(if |Dec(n)| < width then width - |Dec(n)| else 0) + Dec(n)
  }

  lemma PaddedValue(n: nat, width: nat)
    ensures Digits(Padded(n, width)) && Value(Padded(n, width)) == n
  {
    ValueOfDec(n);
    LeadingZeros(if |Dec(n)| < width then width - |Dec(n)| else 0, Dec(n));
  }

  /** It has the digits of the number, and zeros before them up to the width. */
  lemma PaddedIs(n: nat, width: nat)
    ensures |Padded(n, width)| == if |Dec(n)| < width then width else |Dec(n)|
    ensures var zeros := |Padded(n, width)| - |Dec(n)|;
      Padded(n, width)[zeros..] == Dec(n) && forall i | 0 <= i < zeros :: Padded(n, width)[i] == '0'
  {
  }

  /** Padded numerals of any widths are equal only for equal numbers. */
  lemma PaddedInjective(m: nat, v: nat, n: nat, w: nat)
    ensures Padded(m, v) == Padded(n, w) ==> m == n
  {
    PaddedValue(m, v);
    PaddedValue(n, w);
  }
}
