/**
  Decimal text of integers: Python's `str(int)` and the `","` option of the
  format mini-language (PEP 378), which groups the digits in threes from the
  right.
 */
module Numerals {
  import opened Text

  function Pow10(k: nat): (p: nat)
    ensures p >= 1
  {
    if k == 0 then 1 else 10 * Pow10(k - 1)
  }

  lemma {:induction false} Pow10Add(a: nat, b: nat)
    ensures Pow10(a + b) == Pow10(a) * Pow10(b)
  {
    if b > 0 {
      Pow10Add(a, b - 1);
      assert Pow10(a + b) == 10 * Pow10(a + b - 1);
    }
  }

  lemma {:induction false} Pow10Monotone(a: nat, b: nat)
    requires a <= b
    ensures Pow10(a) <= Pow10(b)
  {
    if a < b {
      Pow10Monotone(a, b - 1);
    }
  }

  predicate IsDigit(c: char) { '0' <= c <= '9' }

  predicate AllDigits(s: string) { forall i :: 0 <= i < |s| ==> IsDigit(s[i]) }

  function DigitValue(c: char): (d: nat)
    requires IsDigit(c)
    ensures d < 10
  {
    c as int - '0' as int
  }

  function DigitChar(d: nat): (c: char)
    requires d < 10
    ensures IsDigit(c) && DigitValue(c) == d
  {
    ('0' as int + d) as char
  }

  /** `str(n)` for a non-negative integer: no leading zero, "0" for zero. */
  function NatToString(n: nat): (s: string)
    ensures |s| >= 1 && AllDigits(s)
    ensures s[0] != '0' || n == 0
    ensures n < Pow10(|s|)
    ensures n == 0 || Pow10(|s| - 1) <= n
  {
    if n < 10 then [DigitChar(n)] else NatToString(n / 10) + [DigitChar(n % 10)]
  }

  /** The number a string of decimal digits denotes; leading zeros are allowed. */
  function DigitsValue(s: string): (v: nat)
    requires AllDigits(s)
    ensures v < Pow10(|s|)
  {
    if s == [] then 0 else 10 * DigitsValue(s[..|s| - 1]) + DigitValue(s[|s| - 1])
  }

  /** Reading back the text of `n` gives `n`. */
  lemma {:induction false} NatToStringValue(n: nat)
    ensures DigitsValue(NatToString(n)) == n
  {
    if n >= 10 {
      var s := NatToString(n);
      NatToStringValue(n / 10);
      assert s[..|s| - 1] == NatToString(n / 10);
    }
  }

  /** A number between 10^(n-1) and 10^n has n digits. */
  lemma NatToStringLength(c: nat, n: nat)
    requires n >= 1 && Pow10(n - 1) <= c < Pow10(n)
    ensures |NatToString(c)| == n
  {
    var s := NatToString(c);
    if |s| > n {
      Pow10Monotone(n, |s| - 1);
      assert false;
    } else if |s| < n {
      Pow10Monotone(|s|, n - 1);
      assert false;
    }
  }

  /** Digits after a prefix shift the prefix's value by a power of ten. */
  lemma {:induction false} DigitsValueAppend(a: string, b: string)
    requires AllDigits(a) && AllDigits(b)
    ensures DigitsValue(a + b) == DigitsValue(a) * Pow10(|b|) + DigitsValue(b)
  {
    if b == [] {
      assert a + b == a;
    } else {
      var b' := b[..|b| - 1];
      assert (a + b)[..|a + b| - 1] == a + b';
      DigitsValueAppend(a, b');
      var x := DigitValue(b[|b| - 1]);
      assert DigitsValue(a + b) == 10 * DigitsValue(a + b') + x;
      assert DigitsValue(b) == 10 * DigitsValue(b') + x;
      Distribute(DigitsValue(a + b), DigitsValue(a), Pow10(|b'|), DigitsValue(b'), x, Pow10(|b|), DigitsValue(b));
    }
  }

  lemma Distribute(v: int, A: int, P: int, B: int, x: int, P': int, V: int)
    requires v == 10 * (A * P + B) + x && P' == 10 * P && V == 10 * B + x
    ensures v == A * P' + V
  {
  }

  /** A string of `k` zero digits. */
  function Zeros(k: nat): (s: string)
    ensures |s| == k && AllDigits(s)
    ensures forall i :: 0 <= i < k ==> s[i] == '0'
  {
    seq(k, _ => '0')
  }

  lemma {:induction false} ZerosValue(k: nat)
    ensures DigitsValue(Zeros(k)) == 0
  {
    if k > 0 {
      assert Zeros(k)[..k - 1] == Zeros(k - 1);
      ZerosValue(k - 1);
    }
  }

  /** Leading zeros do not change the value of a digit string. */
  lemma LeadingZeros(k: nat, s: string)
    requires AllDigits(s)
    ensures DigitsValue(Zeros(k) + s) == DigitsValue(s)
  {
    DigitsValueAppend(Zeros(k), s);
    ZerosValue(k);
  }

  /** Trailing zeros multiply the value of a digit string by a power of ten. */
  lemma TrailingZeros(s: string, k: nat)
    requires AllDigits(s)
    ensures DigitsValue(s + Zeros(k)) == DigitsValue(s) * Pow10(k)
  {
    DigitsValueAppend(s, Zeros(k));
    ZerosValue(k);
  }

  /** `str(i)` for any integer. */
  function IntToString(i: int): string
  {
    if i < 0 then "-" + NatToString(-i) else NatToString(i)
  }

  /** The digits of `d` in groups of three from the right, joined by ','. */
  function GroupThousands(d: string): (r: string)
    ensures |d| >= 1 ==> |r| >= 1 && r[0] == d[0]
  {
    if |d| <= 3 then d else GroupThousands(d[..|d| - 3]) + "," + d[|d| - 3..]
  }

  /** `f"{n:,}"`: an optional '-' then the grouped digits of `|n|`. */
  function FormatThousands(n: int): (r: string)
    ensures |r| >= 1 && (r[0] == '-' <==> n < 0)
  {
    if n < 0 then "-" + GroupThousands(NatToString(-n)) else GroupThousands(NatToString(n))
  }

  /** Removing the separators gives `str(n)`, and the text starts with '-' exactly when `n < 0`. */
  lemma FormatThousandsDigits(n: int)
    ensures RemoveCommas(FormatThousands(n)) == IntToString(n)
    ensures |FormatThousands(n)| >= 1 && (FormatThousands(n)[0] == '-' <==> n < 0)
  {
    var d := NatToString(if n < 0 then -n else n);
    GroupThousandsDigits(d);
    if n < 0 {
      RemoveCommasAppend("-", GroupThousands(d));
      RemoveCommasWithout("-");
    }
  }

  /** The text with every ',' removed. */
  function RemoveCommas(s: string): (r: string)
    ensures ',' !in r
  {
    if s == [] then []
    else if s[|s| - 1] == ',' then RemoveCommas(s[..|s| - 1])
    else RemoveCommas(s[..|s| - 1]) + [s[|s| - 1]]
  }

  lemma {:induction false} RemoveCommasAppend(a: string, b: string)
    ensures RemoveCommas(a + b) == RemoveCommas(a) + RemoveCommas(b)
  {
    if b == [] {
      assert a + b == a;
    } else {
      assert (a + b)[..|a + b| - 1] == a + b[..|b| - 1];
      RemoveCommasAppend(a, b[..|b| - 1]);
    }
  }

  lemma {:induction false} RemoveCommasWithout(s: string)
    requires ',' !in s
    ensures RemoveCommas(s) == s
  {
    if s != [] {
      RemoveCommasWithout(s[..|s| - 1]);
    }
  }

  /** Removing the separators from grouped digits gives the digits back. */
  lemma {:induction false} GroupThousandsDigits(d: string)
    requires AllDigits(d)
    ensures RemoveCommas(GroupThousands(d)) == d
  {
    if |d| <= 3 {
      RemoveCommasWithout(d);
    } else {
      var head, tail := d[..|d| - 3], d[|d| - 3..];
      GroupThousandsDigits(head);
      RemoveCommasAppend(GroupThousands(head) + ",", tail);
      RemoveCommasAppend(GroupThousands(head), ",");
      assert RemoveCommas(",") == [];
      RemoveCommasWithout(tail);
      assert head + tail == d;
    }
  }

  /** Digit groups separated by ',': the first of one to three digits, every later one of three. */
  predicate GroupedDigits(s: string)
  {
    var g := Split(s, ',');
    1 <= |g[0]| <= 3 && AllDigits(g[0]) && forall i :: 1 <= i < |g| ==> |g[i]| == 3 && AllDigits(g[i])
  }

  /** The first group holds one to three digits and every later group three. */
  lemma {:induction false} GroupThousandsShape(d: string)
    requires AllDigits(d) && |d| >= 1
    ensures GroupedDigits(GroupThousands(d))
  {
    if |d| <= 3 {
      assert ',' !in d;
      SplitWithout(d, ',');
    } else {
      var head, tail := d[..|d| - 3], d[|d| - 3..];
      GroupThousandsShape(head);
      assert ',' !in tail;
      SplitAppend(GroupThousands(head), ',', tail);
      SplitWithout(tail, ',');
      assert GroupThousands(d) == GroupThousands(head) + [','] + tail;
    }
  }

  /** The grouped text of `n`, minus its sign, has the PEP 378 group shape. */
  lemma FormatThousandsShape(n: int)
    ensures var r := FormatThousands(n); GroupedDigits(if n < 0 then r[1..] else r)
  {
    if n < 0 {
      GroupThousandsShape(NatToString(-n));
      assert FormatThousands(n)[1..] == GroupThousands(NatToString(-n));
    } else {
      GroupThousandsShape(NatToString(n));
    }
  }
}
