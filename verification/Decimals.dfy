/** Decimal numerals: printing a number and reading it back. */
module Decimals {

  predicate IsDigit(c: char) {
    '0' <= c <= '9'
  }

  predicate AllDigits(text: string) {
    forall i :: 0 <= i < |text| ==> IsDigit(text[i])
  }

  function DigitOf(d: nat): (c: char)
    requires d < 10
    ensures IsDigit(c)
  {
    "0123456789"[d]
  }

  function DigitValue(c: char): (d: nat)
    requires IsDigit(c)
    ensures d < 10
  {
    (c - '0') as nat
  }

  /** The numeral of a number, without leading zeros. */
  function Numeral(n: nat): (text: string)
    ensures text != "" && AllDigits(text)
  {
    if n < 10 then [DigitOf(n)] else Numeral(n / 10) + [DigitOf(n % 10)]
  }

  function Value(text: string): nat
    requires AllDigits(text)
  {
    if text == "" then 0
    else Value(text[..|text| - 1]) * 10 + DigitValue(text[|text| - 1])
  }

  lemma {:induction false} ValueOfNumeral(n: nat)
    ensures Value(Numeral(n)) == n
  {
    if n < 10 {
      assert DigitValue(DigitOf(n)) == n;
      assert Numeral(n)[..0] == "";
    } else {
      ValueOfNumeral(n / 10);
      assert Numeral(n)[..|Numeral(n)| - 1] == Numeral(n / 10);
      assert DigitValue(DigitOf(n % 10)) == n % 10;
    }
  }

  /** How many digits the text starts with. */
  function DigitRun(text: string): (n: nat)
    ensures n <= |text| && AllDigits(text[..n])
    ensures n < |text| ==> !IsDigit(text[n])
  {
    if text == "" || !IsDigit(text[0]) then 0
    else
      var n := 1 + DigitRun(text[1..]);
      assert forall i :: 1 <= i < n ==> text[i] == text[1..][..n - 1][i - 1];
      n
  }

  lemma {:induction false} DigitRunOfNumeral(n: nat, rest: string)
    requires rest == "" || !IsDigit(rest[0])
    ensures DigitRun(Numeral(n) + rest) == |Numeral(n)|
    ensures (Numeral(n) + rest)[..|Numeral(n)|] == Numeral(n) && (Numeral(n) + rest)[|Numeral(n)|..] == rest
  {
    var text := Numeral(n) + rest;
    var run := DigitRun(text);
    assert forall i :: 0 <= i < run ==> text[i] == text[..run][i];
    assert forall i :: 0 <= i < |Numeral(n)| ==> text[i] == Numeral(n)[i];
    assert rest != "" ==> text[|Numeral(n)|] == rest[0];
  }

  lemma {:induction false} NumeralInjective(a: nat, b: nat)
    ensures Numeral(a) == Numeral(b) ==> a == b
  {
    ValueOfNumeral(a);
    ValueOfNumeral(b);
  }
}
