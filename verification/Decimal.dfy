/** Decimal text: `%d`, shell arithmetic and `atoi`. */
module Decimal {
  function Digit(d: nat): char
    requires d < 10
  {
    '0' + d as char
  }

  predicate IsDigit(c: char) { '0' <= c <= '9' }

  function Dec(n: nat): (s: string)
    ensures |s| > 0
  {
    if n < 10 then [Digit(n)] else Dec(n / 10) + [Digit(n % 10)]
  }

  predicate AllDigits(s: string) { forall i :: 0 <= i < |s| ==> IsDigit(s[i]) }

  function Undec(s: string): nat
    requires AllDigits(s)
  {
    if s == [] then 0 else 10 * Undec(s[..|s| - 1]) + (s[|s| - 1] as int - '0' as int)
  }

  lemma {:induction false} DecDigits(n: nat)
    ensures AllDigits(Dec(n))
  {
    if n >= 10 { DecDigits(n / 10); }
  }

  lemma {:induction false} UndecDec(n: nat)
    ensures AllDigits(Dec(n)) && Undec(Dec(n)) == n
  {
    DecDigits(n);
    if n >= 10 {
      UndecDec(n / 10);
      assert Dec(n)[..|Dec(n)| - 1] == Dec(n / 10);
    } else {
      assert Dec(n)[..0] == [];
    }
  }

  lemma DecInjective(m: nat, n: nat)
    requires Dec(m) == Dec(n)
    ensures m == n
  {
    UndecDec(m);
    UndecDec(n);
  }

  /** printf("%d") */
  function Signed(i: int): (s: string)
    ensures |s| > 0
  {
    if i < 0 then "-" + Dec(-i) else Dec(i)
  }

  /** The digits at the front of s. */
  function DigitPrefix(s: string): (p: string)
    ensures AllDigits(p)
  {
    if s == [] || !IsDigit(s[0]) then [] else
      var p := DigitPrefix(s[1..]);
      assert AllDigits([s[0]] + p);
      [s[0]] + p
  }

  function SkipBlanks(s: string): string
  {
    if s != [] && s[0] in " \t\n\r" then SkipBlanks(s[1..]) else s
  }

  function Atoi(s: string): int
  {
    var t := SkipBlanks(s);
    if t == [] then 0
    else if t[0] == '-' then 0 - Undec(DigitPrefix(t[1..]))
    else if t[0] == '+' then Undec(DigitPrefix(t[1..]))
    else Undec(DigitPrefix(t))
  }

  lemma {:induction false} PrefixOfDigits(s: string)
    requires AllDigits(s)
    ensures DigitPrefix(s) == s
  {
    if s != [] { PrefixOfDigits(s[1..]); }
  }

  lemma AtoiSigned(i: int)
    ensures Atoi(Signed(i)) == i
  {
    var n := if i < 0 then -i else i;
    UndecDec(n);
    PrefixOfDigits(Dec(n));
    if i < 0 {
      assert Signed(i)[1..] == Dec(n);
    }
  }
}
