/** Decimal numbers as runs of ASCII digits. */
module Decimal {

  const ZERO: int := 48

  predicate IsDigit(c: int) { 48 <= c <= 57 }

  predicate AllDigits(s: seq<int>) {
    forall i :: 0 <= i < |s| ==> IsDigit(s[i])
  }

  /** The number that a run of digits stands for, of any size. */
  function Value(s: seq<int>): int {
    if s == [] then 0 else 10 * Value(s[..|s| - 1]) + (s[|s| - 1] - ZERO)
  }

  /** Without leading zeros. */
  function Digits(n: nat): (s: seq<int>)
    ensures s != [] && AllDigits(s) && (s[0] == ZERO <==> n == 0)
  {
    if n < 10 then [ZERO + n] else Digits(n / 10) + [ZERO + n % 10]
  }

  /** Numbers are written as usual, in ASCII. */
  lemma DigitsWritten(n: nat, d: nat)
    requires d < 10
    ensures Digits(d) == [48 + d] && (n > 0 ==> Digits(10 * n + d) == Digits(n) + [48 + d])
  {
  }

  lemma {:induction false} ValueOfDigits(n: nat)
    ensures Value(Digits(n)) == n
  {
    if n >= 10 {
      ValueOfDigits(n / 10);
      assert Digits(n)[..|Digits(n)| - 1] == Digits(n / 10);
    }
  }

  /** Only a run without superfluous leading zeros is printed back as it was. */
  lemma {:induction false} DigitsOfValue(s: seq<int>)
    requires s != [] && AllDigits(s)
    ensures Value(s) >= 0 && (Digits(Value(s)) == s <==> s[0] != ZERO || |s| == 1)
  {
    if |s| > 1 {
      var t := s[..|s| - 1];
      DigitsOfValue(t);
      if s[0] != ZERO {
        assert t == [t[0]] ==> Value(t) == 10 * Value([]) + t[0] - ZERO;
        assert Value(t) >= 1;
        assert Value(s) / 10 == Value(t) && Value(s) % 10 == s[|s| - 1] - ZERO;
      }
    }
  }

  function Pow10(n: nat): nat {
    if n == 0 then 1 else 10 * Pow10(n - 1)
  }

  lemma {:induction false} ValueBounds(s: seq<int>)
    requires AllDigits(s)
    ensures 0 <= Value(s) < Pow10(|s|)
    ensures s != [] && s[0] != ZERO ==> Pow10(|s| - 1) <= Value(s)
  {
    if s != [] {
      ValueBounds(s[..|s| - 1]);
    }
  }

  lemma {:induction false} Pow10Grows(m: nat, n: nat)
    requires m <= n
    ensures Pow10(m) <= Pow10(n)
  {
    if m < n {
      Pow10Grows(m, n - 1);
    }
  }

  /** Of two numbers without leading zeros, the one with more digits is greater. */
  lemma LongerIsGreater(s: seq<int>, t: seq<int>)
    requires AllDigits(s) && AllDigits(t) && |s| > |t| && s[0] != ZERO
    ensures Value(s) > Value(t)
  {
    ValueBounds(s);
    ValueBounds(t);
    Pow10Grows(|t|, |s| - 1);
  }

  lemma {:induction false} LeadingZero(s: seq<int>)
    requires s != [] && s[0] == ZERO
    ensures Value(s) == Value(s[1..])
  {
    if |s| > 1 {
      assert s[..|s| - 1][1..] == s[1..][..|s| - 2];
      LeadingZero(s[..|s| - 1]);
    }
  }
}
