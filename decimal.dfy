/**
 * Decimal text of natural numbers: the digit rendering behind
 * `Long.toUnsignedString`, and a digit parser that is its inverse.
 */
module Decimal {
  import opened Wrappers

  predicate IsDigit(c: char) {
    '0' <= c <= '9'
  }

  function DigitValue(c: char): (d: nat)
    requires IsDigit(c)
  {
    c as int - '0' as int
  }

  /** The character that shows the digit `d`. */
  function DigitChar(d: nat): (c: char)
    requires d < 10
    ensures IsDigit(c) && DigitValue(c) == d
  {
    ('0' as int + d) as char
  }

  predicate AllDigits(s: string) {
    forall i :: 0 <= i < |s| ==> IsDigit(s[i])
  }

  /** Non-empty, digits only, and no leading zero unless the text is just "0". */
  predicate Canonical(s: string) {
    |s| > 0 && AllDigits(s) && (s[0] == '0' ==> |s| == 1)
  }

  /** Decimal rendering of `n`, most significant digit first. */
  function UDec(n: nat): (s: string)
    ensures Canonical(s)
    ensures '-' !in s
    ensures s[0] == '0' <==> n == 0
    decreases n
  {
    if n < 10 then [DigitChar(n)] else UDec(n / 10) + [DigitChar(n % 10)]
  }

  /** The number a string of digits denotes (leading zeros allowed). */
  function Value(s: string): nat
    requires AllDigits(s)
    decreases |s|
  {
    if s == [] then 0 else Value(s[..|s| - 1]) * 10 + DigitValue(s[|s| - 1])
  }

  /** Reads a non-empty string of decimal digits; anything else is rejected. */
  function Parse(s: string): Option<nat> {
    if |s| > 0 && AllDigits(s) then Some(Value(s)) else None
  }

  lemma {:induction false} ValueOfUDec(n: nat)
    ensures Value(UDec(n)) == n
    decreases n
  {
    if n >= 10 {
      var p := UDec(n / 10);
      ValueOfUDec(n / 10);
      var s := p + [DigitChar(n % 10)];
      assert s[..|s| - 1] == p;
    }
  }

  /** Parsing the rendering gives back the number. */
  lemma ParseUDec(n: nat)
    ensures Parse(UDec(n)) == Some(n)
  {
    ValueOfUDec(n);
  }

  /** Two numbers with the same rendering are equal. */
  lemma UDecInjective(a: nat, b: nat)
    ensures UDec(a) == UDec(b) ==> a == b
  {
    ValueOfUDec(a);
    ValueOfUDec(b);
  }

  lemma {:induction false} ValuePositive(s: string)
    requires AllDigits(s) && |s| > 0 && s[0] != '0'
    ensures Value(s) > 0
    decreases |s|
  {
    if |s| > 1 {
      ValuePositive(s[..|s| - 1]);
    }
  }

  /** Every canonical digit string is the rendering of the number it denotes. */
  lemma {:induction false} UDecOfValue(s: string)
    requires Canonical(s)
    ensures UDec(Value(s)) == s
    decreases |s|
  {
    if |s| > 1 {
      var p := s[..|s| - 1];
      var c := s[|s| - 1];
      assert Canonical(p);
      ValuePositive(p);
      UDecOfValue(p);
      var v := Value(s);
      assert v / 10 == Value(p) && v % 10 == DigitValue(c);
      assert s == p + [c];
    }
  }

  /** Appending the digit `c` to the rendering of `n / 10` renders `n`. */
  lemma UDecAppend(n: nat, p: string, c: char)
    requires n >= 10 && UDec(n / 10) == p
    requires IsDigit(c) && DigitValue(c) == n % 10
    ensures UDec(n) == p + [c]
  {
  }
}
