/** Decimal printing and parsing of naturals, as str/int in Python and to_s in Ruby do it. */
module Decimal {

  predicate IsDigit(c: char)
  {
    '0' <= c <= '9'
  }

  predicate AllDigits(s: string)
  {
    forall c <- s :: IsDigit(c)
  }

  function Digit(d: nat): (c: char)
    requires d < 10
    ensures IsDigit(c) && c as int - '0' as int == d
  {
    '0' + d as char
  }

  function Print(n: nat): (s: string)
    ensures s != "" && AllDigits(s)
  {
    if n < 10 then [Digit(n)] else Print(n / 10) + [Digit(n % 10)]
  }

  /** Leading zeros are accepted, as by int(). */
  function Value(s: string): nat
    requires AllDigits(s)
  {
    if s == "" then 0
    else
      assert s[|s| - 1] in s;
      Value(s[..|s| - 1]) * 10 + (s[|s| - 1] as int - '0' as int)
  }

  lemma {:induction false} ValueOfPrint(n: nat)
    ensures Value(Print(n)) == n
  {
    if n < 10 {
      assert [Digit(n)][..0] == "";
    } else {
      ValueOfPrint(n / 10);
      assert Print(n)[..|Print(n)| - 1] == Print(n / 10);
    }
  }

  predicate NoLeadingZero(s: string)
  {
    |s| == 1 || (s != "" && s[0] != '0')
  }

  lemma {:induction false} PrintHasNoLeadingZero(n: nat)
    ensures NoLeadingZero(Print(n)) && (Print(n)[0] == '0' <==> n == 0)
  {
    if n >= 10 {
      PrintHasNoLeadingZero(n / 10);
    }
  }

  lemma DigitBack(c: char)
    requires IsDigit(c)
    ensures Digit(c as int - '0' as int) == c
  {
  }

  lemma {:induction false} PrintOfValue(s: string)
    requires AllDigits(s) && NoLeadingZero(s)
    ensures Print(Value(s)) == s
  {
    var front, last := s[..|s| - 1], s[|s| - 1];
    assert last in s;
    DigitBack(last);
    assert s == front + [last];
    if |s| > 1 {
      assert front[0] == s[0] && AllDigits(front);
      PrintOfValue(front);
      PrintHasNoLeadingZero(Value(front));
      assert Value(front) > 0;
      assert Value(s) / 10 == Value(front) && Value(s) % 10 == last as int - '0' as int;
    } else {
      assert front == "" && Value(front) == 0;
    }
  }

  /** Reading and printing gives a numeral back exactly when it has no leading zero. */
  lemma PrintOfValueIff(s: string)
    requires s != "" && AllDigits(s)
    ensures Print(Value(s)) == s <==> NoLeadingZero(s)
  {
    PrintHasNoLeadingZero(Value(s));
    if NoLeadingZero(s) {
      PrintOfValue(s);
    }
  }

  lemma PrintInjective(m: nat, n: nat)
    requires Print(m) == Print(n)
    ensures m == n
  {
    ValueOfPrint(m);
    ValueOfPrint(n);
  }
}
