/** Decimal numerals: zero-padded printing and digit-by-digit reading. */
module Decimal {
  import opened Wrappers

  predicate IsDigit(c: char) {
    '0' <= c <= '9'
  }

  predicate AllDigits(s: string) {
    forall i :: 0 <= i < |s| ==> IsDigit(s[i])
  }

  function DigitChar(d: int): char
    requires 0 <= d < 10
  {
    ('0' as int + d) as char
  }

  /** The numeral of n, padded with zeros to at least the given width. */
  function Print(n: nat, width: nat): (s: string)
    ensures |s| >= 1 && |s| >= width
    ensures AllDigits(s)
    decreases n, width
  {
    if n < 10 && width <= 1 then [DigitChar(n)]
    else Print(n / 10, if width > 0 then width - 1 else 0) + [DigitChar(n % 10)]
  }

  function Value(s: string): nat
    requires AllDigits(s)
  {
    if s == "" then 0 else 10 * Value(s[..|s| - 1]) + (s[|s| - 1] as int - '0' as int)
  }

  function Pow10(k: nat): (p: nat)
    ensures p > 0
  {
    if k == 0 then 1 else 10 * Pow10(k - 1)
  }

  lemma {:induction false} ValueOfPrint(n: nat, width: nat)
    ensures Value(Print(n, width)) == n
    decreases n, width
  {
    var s := Print(n, width);
    if n < 10 && width <= 1 {
      assert s[..|s| - 1] == "";
    } else {
      var shorter := if width > 0 then width - 1 else 0;
      ValueOfPrint(n / 10, shorter);
      assert s[..|s| - 1] == Print(n / 10, shorter);
    }
  }

  /** Every numeral is the printing of its value to its own width. */
  lemma {:induction false} PrintOfValue(s: string)
    requires AllDigits(s) && s != ""
    ensures Print(Value(s), |s|) == s
  {
    var init, last := s[..|s| - 1], s[|s| - 1];
    assert s == init + [last];
    LastDigit(Value(init), last);
    if |s| > 1 {
      PrintOfValue(init);
    } else {
      assert Value(init) == 0;
    }
  }

  lemma LastDigit(high: nat, c: char)
    requires IsDigit(c)
    ensures var n := 10 * high + (c as int - '0' as int);
            n / 10 == high && DigitChar(n % 10) == c
  {
  }

  /** A number that fits the width is padded to exactly that width; a larger one is wider. */
  lemma {:induction false} PrintedLength(n: nat, width: nat)
    requires width >= 1
    ensures |Print(n, width)| == width <==> n < Pow10(width)
    decreases width
  {
    if width == 1 {
      assert Pow10(1) == 10;
    } else {
      PrintedLength(n / 10, width - 1);
    }
  }

  lemma {:induction false} ValueBelowPow10(s: string)
    requires AllDigits(s)
    ensures Value(s) < Pow10(|s|)
  {
    if s != "" {
      ValueBelowPow10(s[..|s| - 1]);
    }
  }

  function TrimZeros(s: string): (r: string)
    ensures |r| <= |s| && r == s[..|r|]
  {
    if s != "" && s[|s| - 1] == '0' then TrimZeros(s[..|s| - 1]) else s
  }

  lemma {:induction false} TrimmedEnd(s: string)
    ensures TrimZeros(s) != "" ==> TrimZeros(s)[|TrimZeros(s)| - 1] != '0'
  {
    if s != "" && s[|s| - 1] == '0' {
      TrimmedEnd(s[..|s| - 1]);
    }
  }

  /** v with k zeros appended. */
  function Scale(v: nat, k: nat): nat
    decreases k
  {
    if k == 0 then v else Scale(10 * v, k - 1)
  }

  /** Dropping trailing zeros keeps a number's value once it is scaled back to nine places. */
  lemma {:induction false} TrimKeepsFraction(s: string)
    requires AllDigits(s) && |s| <= 9
    ensures AllDigits(TrimZeros(s))
    ensures Scale(Value(TrimZeros(s)), 9 - |TrimZeros(s)|) == Scale(Value(s), 9 - |s|)
  {
    if s != "" && s[|s| - 1] == '0' {
      var shorter := s[..|s| - 1];
      TrimKeepsFraction(shorter);
      assert Value(s) == 10 * Value(shorter);
    }
  }

  lemma {:induction false} ScaleZero(k: nat)
    ensures Scale(0, k) == 0
  {
    if k > 0 {
      ScaleZero(k - 1);
    }
  }

  lemma {:induction false} ScaleBelow(v: nat, digits: nat, k: nat)
    requires v < Pow10(digits)
    ensures Scale(v, k) < Pow10(digits + k)
    decreases k
  {
    if k > 0 {
      ScaleBelow(10 * v, digits + 1, k - 1);
    }
  }
}
