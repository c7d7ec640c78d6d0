/** Scratch file names: segment `i` is fetched into the file `part_<i>`, with
    `<i>` written in decimal as `%d` prints a non-negative int. The merger
    reopens the same name for index `i`, so the name must determine the index. */
module PartNames {

  predicate IsDigit(c: char) {
    '0' <= c <= '9'
  }

  function Digit(d: int): (c: char)
    requires 0 <= d < 10
    ensures IsDigit(c)
  {
    (('0' as int) + d) as char
  }

  function DigitValue(c: char): (d: int)
    requires IsDigit(c)
    ensures 0 <= d < 10
  {
    (c as int) - ('0' as int)
  }

  /** Decimal digits of `n`, without leading zeros. */
  function DecimalString(n: nat): (s: string)
    ensures |s| > 0 && forall k :: 0 <= k < |s| ==> IsDigit(s[k])
    decreases n
  {
    if n < 10 then [Digit(n)] else DecimalString(n / 10) + [Digit(n % 10)]
  }

  /** The value of a string of decimal digits. */
  function ParseDecimal(s: string): nat
    requires forall k :: 0 <= k < |s| ==> IsDigit(s[k])
  {
    if s == [] then 0 else ParseDecimal(s[..|s| - 1]) * 10 + DigitValue(s[|s| - 1])
  }

  /** Reading back the digits `%d` prints gives the number printed. */
  lemma {:induction false} ParseDecimalString(n: nat)
    ensures ParseDecimal(DecimalString(n)) == n
    decreases n
  {
    var s := DecimalString(n);
    if n < 10 {
      assert s[..0] == [];
    } else {
      ParseDecimalString(n / 10);
      assert s[..|s| - 1] == DecimalString(n / 10);
    }
  }

  /** Name of the scratch file of segment `i` (`"part_%d"`). */
  function PartName(i: nat): string {
    "part_" + DecimalString(i)
  }

  /** Distinct segments never share a scratch file. */
  lemma PartNameInjective(i: nat, j: nat)
    ensures PartName(i) == PartName(j) <==> i == j
  {
    if PartName(i) == PartName(j) {
      assert PartName(i)[5..] == DecimalString(i);
      assert PartName(j)[5..] == DecimalString(j);
      ParseDecimalString(i);
      ParseDecimalString(j);
    }
  }

  lemma PartNameExamples()
    ensures PartName(0) == "part_0" && PartName(12) == "part_12"
  {
  }
}
