/** Decimal rendering of natural numbers, as a template literal renders a
    story id or a word count, and the reading of such digits back. */
module Decimal {

  predicate IsDigit(c: char) {
    '0' <= c <= '9'
  }

  predicate AllDigits(s: string) {
    forall i :: 0 <= i < |s| ==> IsDigit(s[i])
  }

  function DigitChar(d: nat): (c: char)
    requires d < 10
    ensures IsDigit(c)
  {
    ['0', '1', '2', '3', '4', '5', '6', '7', '8', '9'][d]
  }

  function DigitValue(c: char): (d: nat)
    requires IsDigit(c)
    ensures d < 10 && DigitChar(d) == c
  {
    (c as int - '0' as int)
  }

  /** The shortest decimal numeral of n: no sign, no leading zero. */
  function Show(n: nat): (r: string)
    ensures r != [] && AllDigits(r)
    ensures r[0] == '0' <==> n == 0
    decreases n
  {
    if n < 10 then [DigitChar(n)] else Show(n / 10) + [DigitChar(n % 10)]
  }

  /** The number a string of decimal digits denotes. */
  function Value(s: string): nat
    requires AllDigits(s)
  {
    if s == [] then 0 else 10 * Value(s[..|s| - 1]) + DigitValue(s[|s| - 1])
  }

  lemma {:induction false} ValueOfShow(n: nat)
    ensures Value(Show(n)) == n
    decreases n
  {
    if n >= 10 {
      var s := Show(n);
      assert s == Show(n / 10) + [DigitChar(n % 10)];
      assert s[..|s| - 1] == Show(n / 10);
      ValueOfShow(n / 10);
      assert DigitValue(s[|s| - 1]) == n % 10;
    }
  }

  /** Different numbers are rendered differently. */
  lemma ShowInjective(a: nat, b: nat)
    ensures Show(a) == Show(b) ==> a == b
  {
    ValueOfShow(a);
    ValueOfShow(b);
  }

  /** Length of the longest run of digits that ends s. */
  function TrailingDigits(s: string): (n: nat)
    ensures n <= |s| && AllDigits(s[|s| - n..])
    ensures n < |s| ==> !IsDigit(s[|s| - n - 1])
  {
    if s == [] || !IsDigit(s[|s| - 1]) then 0 else 1 + TrailingDigits(s[..|s| - 1])
  }

  /** Length of the longest run of digits that starts s. */
  function LeadingDigits(s: string): (n: nat)
    ensures n <= |s| && AllDigits(s[..n])
    ensures n < |s| ==> !IsDigit(s[n])
  {
    if s == [] || !IsDigit(s[0]) then 0 else 1 + LeadingDigits(s[1..])
  }

  /** A numeral written right after a non-digit is read back from the end. */
  lemma {:induction false} TrailingNumeral(before: string, n: nat)
    requires before == [] || !IsDigit(before[|before| - 1])
    ensures var s := before + Show(n);
      TrailingDigits(s) == |Show(n)| && Value(s[|s| - TrailingDigits(s)..]) == n
  {
    var s := before + Show(n);
    var d := Show(n);
    TrailingDigitsOfSuffix(before, d);
    assert s[|s| - |d|..] == d;
    ValueOfShow(n);
  }

  lemma {:induction false} TrailingDigitsOfSuffix(before: string, d: string)
    requires AllDigits(d)
    requires before == [] || !IsDigit(before[|before| - 1])
    ensures TrailingDigits(before + d) == |d|
    decreases |d|
  {
    if d == [] {
      assert before + d == before;
    } else {
      var s := before + d;
      assert s[..|s| - 1] == before + d[..|d| - 1];
      TrailingDigitsOfSuffix(before, d[..|d| - 1]);
    }
  }

  /** A numeral followed by a non-digit is read back from the front. */
  lemma {:induction false} LeadingNumeral(n: nat, after: string)
    requires after == [] || !IsDigit(after[0])
    ensures var s := Show(n) + after;
      LeadingDigits(s) == |Show(n)| && Value(s[..LeadingDigits(s)]) == n
  {
    var s := Show(n) + after;
    var d := Show(n);
    LeadingDigitsOfPrefix(d, after);
    assert s[..|d|] == d;
    ValueOfShow(n);
  }

  lemma {:induction false} LeadingDigitsOfPrefix(d: string, after: string)
    requires AllDigits(d)
    requires after == [] || !IsDigit(after[0])
    ensures LeadingDigits(d + after) == |d|
    decreases |d|
  {
    if d == [] {
      assert d + after == after;
    } else {
      assert (d + after)[1..] == d[1..] + after;
      LeadingDigitsOfPrefix(d[1..], after);
    }
  }
}
