/**
  The finite values of Python's `decimal.Decimal` and the four operations on
  them that the exchange models use: the product under the default context
  (28 significant digits, rounding half to even), `int(d)`, the remainder
  `d % 1`, the conversion `str(d)` and the constructor `Decimal(text)`.
 */
module Decimals {
  import opened Wrappers
  import opened Text
  import opened Numerals

  /** (-1)^negative * coefficient * 10^exponent, sign kept even for zero. */
  datatype Decimal = Decimal(negative: bool, coefficient: nat, exponent: int)

  /** The conditions under which `decimal` signals InvalidOperation here. */
  datatype DecimalError = ConversionSyntax | DivisionImpossible

  /** Significant digits of the default decimal context. */
  const Precision: nat := 28

  function ScaledRec(c: nat, e: int): real
    decreases if e >= 0 then e else -e
  {
    if e == 0 then c as real
    else if e > 0 then 10.0 * ScaledRec(c, e - 1)
    else ScaledRec(c, e + 1) / 10.0
  }

  /** c * 10^e. */
  function Scaled(c: nat, e: int): real
  {
    ScaledRec(c, e)
  }

  lemma ScaledStep(c: nat, e: int)
    ensures Scaled(c, e + 1) == 10.0 * Scaled(c, e)
  {
    if e < 0 {
      assert ScaledRec(c, e) == ScaledRec(c, e + 1) / 10.0;
    }
  }

  lemma ScaledZero(c: nat)
    ensures Scaled(c, 0) == c as real
  {
  }

  /** A positive coefficient keeps a positive value at every exponent. */
  lemma {:induction false} ScaledPositive(c: nat, e: int)
    requires c > 0
    ensures Scaled(c, e) > 0.0
    decreases if e >= 0 then e else -e
  {
    if e > 0 {
      ScaledPositive(c, e - 1);
      ScaledStep(c, e - 1);
    } else if e < 0 {
      ScaledPositive(c, e + 1);
      ScaledStep(c, e);
    }
  }

  lemma {:induction false} ScaledTen(c: nat, e: int)
    ensures Scaled(10 * c, e) == Scaled(c, e + 1)
    decreases if e >= 0 then e else -e
  {
    if e == 0 {
      ScaledStep(c, 0);
    } else if e > 0 {
      ScaledTen(c, e - 1);
      ScaledStep(c, e);
      ScaledStep(10 * c, e - 1);
    } else {
      ScaledTen(c, e + 1);
      ScaledStep(c, e);
      ScaledStep(c, e + 1);
      ScaledStep(10 * c, e);
    }
  }

  lemma {:induction false} ScaledShift(c: nat, e: int, m: nat)
    ensures Scaled(c * Pow10(m), e - m) == Scaled(c, e)
  {
    if m > 0 {
      ScaledShift(c, e, m - 1);
      assert c * Pow10(m) == 10 * (c * Pow10(m - 1));
      ScaledTen(c * Pow10(m - 1), e - m);
    }
  }

  lemma {:induction false} ScaledConst(a: nat, cb: nat, eb: int)
    ensures Scaled(a * cb, eb) == (a as real) * Scaled(cb, eb)
    decreases if eb >= 0 then eb else -eb, 1
  {
    if eb > 0 {
      ScaledConstUp(a, cb, eb, a * cb);
    } else if eb < 0 {
      ScaledConstDown(a, cb, eb, a * cb);
    }
  }

  lemma {:induction false} ScaledConstUp(a: nat, cb: nat, eb: int, c: nat)
    requires eb > 0 && c == a * cb
    ensures Scaled(c, eb) == (a as real) * Scaled(cb, eb)
    decreases eb, 0
  {
    ScaledConst(a, cb, eb - 1);
    ScaledStep(c, eb - 1);
    ScaledStep(cb, eb - 1);
    TenTimes(Scaled(c, eb), Scaled(c, eb - 1), Scaled(cb, eb), Scaled(cb, eb - 1), a as real);
  }

  lemma {:induction false} ScaledConstDown(a: nat, cb: nat, eb: int, c: nat)
    requires eb < 0 && c == a * cb
    ensures Scaled(c, eb) == (a as real) * Scaled(cb, eb)
    decreases -eb, 0
  {
    ScaledConst(a, cb, eb + 1);
    ScaledStep(c, eb);
    ScaledStep(cb, eb);
    TenTimes(Scaled(c, eb + 1), Scaled(c, eb), Scaled(cb, eb + 1), Scaled(cb, eb), a as real);
  }

  /** With p == 10 p' and x == 10 x': p == y x exactly when p' == y x'. */
  lemma TenTimes(p: real, p': real, x: real, x': real, y: real)
    requires p == 10.0 * p' && x == 10.0 * x'
    ensures p' == y * x' <==> p == y * x
    ensures p' == x' * y <==> p == x * y
  {
  }

  /** ScaledStep at the caller's own exponent terms, so that they match without arithmetic on them. */
  lemma ScaledStepAt(c: nat, e: int, e': int)
    requires e' == e + 1
    ensures Scaled(c, e') == 10.0 * Scaled(c, e)
  {
    ScaledStep(c, e);
  }

  lemma {:induction false} ScaledProduct(ca: nat, cb: nat, ea: int, eb: int)
    ensures Scaled(ca * cb, ea + eb) == Scaled(ca, ea) * Scaled(cb, eb)
    decreases if ea >= 0 then ea else -ea, 1
  {
    if ea == 0 {
      ScaledConst(ca, cb, eb);
      ScaledZero(ca);
    } else if ea > 0 {
      ScaledProductUp(ca, cb, ea, eb, ca * cb, ea + eb);
    } else {
      ScaledProductDown(ca, cb, ea, eb, ca * cb, ea + eb);
    }
  }

  lemma {:induction false} ScaledProductUp(ca: nat, cb: nat, ea: int, eb: int, c: nat, e: int)
    requires ea > 0 && c == ca * cb && e == ea + eb
    ensures Scaled(c, e) == Scaled(ca, ea) * Scaled(cb, eb)
    decreases ea, 0
  {
    ScaledProduct(ca, cb, ea - 1, eb);
    ScaledStepAt(c, e - 1, e);
    ScaledStepAt(ca, ea - 1, ea);
    TenTimes(Scaled(c, e), Scaled(c, e - 1), Scaled(ca, ea), Scaled(ca, ea - 1), Scaled(cb, eb));
  }

  lemma {:induction false} ScaledProductDown(ca: nat, cb: nat, ea: int, eb: int, c: nat, e: int)
    requires ea < 0 && c == ca * cb && e == ea + eb
    ensures Scaled(c, e) == Scaled(ca, ea) * Scaled(cb, eb)
    decreases -ea, 0
  {
    ScaledProduct(ca, cb, ea + 1, eb);
    ScaledStepAt(c, e, e + 1);
    ScaledStepAt(ca, ea, ea + 1);
    TenTimes(Scaled(c, e + 1), Scaled(c, e), Scaled(ca, ea + 1), Scaled(ca, ea), Scaled(cb, eb));
  }

  lemma ScaledWhole(c: nat, m: nat)
    ensures Scaled(c, m) == (c * Pow10(m)) as real
  {
    ScaledShift(c, m, m);
    ScaledZero(c * Pow10(m));
  }

  lemma ScaledFraction(c: nat, k: nat)
    ensures Scaled(c, -(k as int)) * (Pow10(k) as real) == c as real
  {
    ScaledShift(c, 0, k);
    ScaledProductAt(c, Pow10(k), -(k as int), 0, 0 - k);
    ScaledZero(Pow10(k));
    ScaledZero(c);
  }

  /** ScaledProduct at the caller's own exponent term. */
  lemma ScaledProductAt(ca: nat, cb: nat, ea: int, eb: int, e: int)
    requires e == ea + eb
    ensures Scaled(ca * cb, e) == Scaled(ca, ea) * Scaled(cb, eb)
  {
    ScaledProduct(ca, cb, ea, eb);
  }

  lemma RealProduct(m: nat, n: nat)
    ensures (m * n) as real == (m as real) * (n as real)
  {
  }

  /** When x * p == c, the floor of x is c / p, and x is whole exactly when p divides c. */
  lemma FloorFromProduct(x: real, p: nat, c: nat)
    requires p > 0 && x * (p as real) == c as real
    ensures x.Floor == c / p
    ensures x == (c / p) as real <==> c % p == 0
  {
    var q, r := c / p, c % p;
    assert c == q * p + r;
    RealProduct(q, p);
    FractionPart(x, q as real, p as real, r as real);
  }

  lemma FractionPart(x: real, q: real, p: real, r: real)
    requires p > 0.0 && 0.0 <= r < p && x * p == q * p + r
    ensures q <= x < q + 1.0
    ensures x == q <==> r == 0.0
  {
    var y := x - q;
    assert y * p == r;
    assert (1.0 - y) * p == p - r;
    PositiveFactor(1.0 - y, p);
    if r == 0.0 {
      ZeroFactor(y, p);
    } else {
      PositiveFactor(y, p);
    }
  }

  lemma PositiveFactor(a: real, p: real)
    requires p > 0.0 && a * p > 0.0
    ensures a > 0.0
  {
  }

  lemma ZeroFactor(a: real, p: real)
    requires p > 0.0 && a * p == 0.0
    ensures a == 0.0
  {
  }

  /** |d| as a real number. */
  function Magnitude(d: Decimal): real
  {
    Scaled(d.coefficient, d.exponent)
  }

  /** The number `d` denotes. */
  function Value(d: Decimal): real
  {
    if d.negative then -Magnitude(d) else Magnitude(d)
  }

  /** Appending m zeros to the coefficient and lowering the exponent by m keeps the value. */
  lemma ValueShift(negative: bool, c: nat, e: int, m: nat, c': nat, e': int)
    requires c' == c * Pow10(m) && e' == e - m
    ensures Value(Decimal(negative, c', e')) == Value(Decimal(negative, c, e))
  {
    ScaledShift(c, e, m);
  }

  /** Truncation toward zero, the rounding Python's `int()` applies. */
  function TruncReal(x: real): int
  {
    if x >= 0.0 then x.Floor else -((-x).Floor)
  }

  /** The integer part of |d|. */
  function IntegerMagnitude(d: Decimal): nat
  {
    if d.exponent >= 0 then
      var p := Pow10(d.exponent);
      d.coefficient * p
    else
      var p := Pow10(-d.exponent);
      DivNat(d.coefficient, p);
      d.coefficient / p
  }

  /** `int(d)`. */
  function ToInt(d: Decimal): (r: int)
    ensures (if r < 0 then -r else r) == IntegerMagnitude(d)
    ensures r != 0 ==> (r < 0 <==> d.negative)
  {
    if d.negative then -(IntegerMagnitude(d) as int) else IntegerMagnitude(d)
  }

  lemma MagnitudeFloor(d: Decimal)
    ensures Magnitude(d).Floor == IntegerMagnitude(d)
    ensures Magnitude(d) == IntegerMagnitude(d) as real <==> IsWhole(d)
  {
    if d.exponent >= 0 {
      ScaledWhole(d.coefficient, d.exponent);
    } else {
      var k: nat := -d.exponent;
      ScaledFraction(d.coefficient, k);
      FloorFromProduct(Magnitude(d), Pow10(k), d.coefficient);
    }
  }

  /** `int(d)` truncates the exact value toward zero. */
  lemma ToIntTruncates(d: Decimal)
    ensures ToInt(d) == TruncReal(Value(d))
  {
    MagnitudeFloor(d);
  }

  /** No fractional digit of `d` is non-zero. */
  predicate IsWhole(d: Decimal)
  {
    d.exponent >= 0 || d.coefficient % Pow10(-d.exponent) == 0
  }

  /** `d` is whole exactly when `int(d)` loses nothing. */
  lemma WholeIffIntegral(d: Decimal)
    ensures IsWhole(d) <==> Value(d) == ToInt(d) as real
  {
    MagnitudeFloor(d);
  }

  lemma DivNat(c: nat, p: nat)
    requires p > 0
    ensures 0 <= c / p
  {
  }

  lemma ProductZero(x: nat, y: nat)
    ensures x * y == 0 <==> x == 0 || y == 0
  {
  }

  lemma MulMonotone(a: nat, x: int, y: int)
    requires x <= y
    ensures a * x <= a * y
  {
  }

  lemma DivBounds(c: nat, a: nat, lo: nat, hi: nat)
    requires a > 0 && a * lo <= c < a * hi
    ensures lo <= c / a < hi
  {
    var q, r := c / a, c % a;
    assert c == a * q + r && r < a;
    if q >= hi {
      MulMonotone(a, hi, q);
      assert false;
    }
    if q < lo {
      MulMonotone(a, q + 1, lo);
      assert false;
    }
  }

  /** A coefficient of more than `prec` digits keeps its first `prec` digits once the others are dropped. */
  lemma RoundBounds(c: nat, prec: nat)
    requires prec >= 1 && c >= Pow10(prec)
    ensures |NatToString(c)| > prec
    ensures var p := Pow10(|NatToString(c)| - prec);
      Pow10(prec - 1) <= c / p < Pow10(prec)
  {
    var n := |NatToString(c)|;
    if n <= prec {
      Pow10Monotone(n, prec);
      assert false;
    }
    var k := n - prec;
    Pow10Add(k, prec);
    Pow10Add(k, prec - 1);
    DivBounds(c, Pow10(k), Pow10(prec - 1), Pow10(prec));
  }

  /** `c` divided by `p`, rounded half to even. */
  function RoundDiv(c: nat, p: nat): (q: nat)
    requires p > 0
    ensures c / p <= q <= c / p + 1
    ensures q == c / p + 1 <==> 2 * (c % p) > p || (2 * (c % p) == p && (c / p) % 2 == 1)
  {
    DivNat(c, p);
    var q, rem := c / p, c % p;
    if 2 * rem > p || (2 * rem == p && q % 2 == 1) then q + 1 else q
  }

  /** The number of trailing digits rounding `c` to `prec` digits drops. */
  function DroppedDigits(c: nat, prec: nat): nat
  {
    if |NatToString(c)| > prec then |NatToString(c)| - prec else 0
  }

  /**
    Rounding `c` to `prec` digits loses nothing: `c` already fits, or every
    digit dropped is a zero (without its trailing zeros `c` has at most
    `prec` digits).
   */
  predicate ExactIn(c: nat, prec: nat)
  {
    c < Pow10(prec) || c % Pow10(DroppedDigits(c, prec)) == 0
  }

  /**
    Past the precision the exponent rises by exactly the digits dropped, or
    by one more when the rounding carries and the coefficient becomes
    `10^(prec - 1)`.
   */
  predicate ExponentRaised(r: Decimal, d: Decimal, prec: nat)
    requires prec >= 1
  {
    var k := DroppedDigits(d.coefficient, prec);
    d.coefficient >= Pow10(prec) ==>
      r.exponent == d.exponent + k || (r.exponent == d.exponent + k + 1 && r.coefficient == Pow10(prec - 1))
  }

  /**
    `r` is `d` rounded to within half a unit of the last of `prec` kept
    digits: `r`'s exponent is raised by at most one more than the digits
    dropped, and `r`'s coefficient, brought back to `d`'s exponent, is off
    from `d`'s by at most half of 10^k, k the number of digits dropped.
   */
  predicate WithinHalfUnit(r: Decimal, d: Decimal, prec: nat)
  {
    var k := DroppedDigits(d.coefficient, prec);
    d.exponent <= r.exponent <= d.exponent + k + 1 &&
    var back := r.coefficient * Pow10(r.exponent - d.exponent);
    -(Pow10(k) as int) <= 2 * (back as int - d.coefficient) <= Pow10(k)
  }

  /** Rounding half to even lands within half a step `p` of `c`, and exactly on `c` when `p` divides it. */
  lemma HalfEven(c: nat, p: nat, q: nat)
    requires p > 0 && q == RoundDiv(c, p)
    ensures -(p as int) <= 2 * ((q * p) as int - c) <= p
    ensures c % p == 0 ==> q * p == c
  {
    var lo, rem := c / p, c % p;
    assert c == lo * p + rem;
    if q == lo {
      assert q * p - c == -rem;
    } else {
      assert q * p == lo * p + p;
    }
  }

  /** A rounded coefficient that lands on a power of ten carries into one digit fewer. */
  lemma Carry(prec: nat, k: nat)
    requires prec >= 1
    ensures Pow10(prec - 1) * Pow10(k + 1) == Pow10(prec) * Pow10(k)
  {
    Pow10Add(prec - 1, k + 1);
    Pow10Add(prec, k);
  }

  /**
    Decimal._fix for a context of `prec` digits: a coefficient of more than
    `prec` digits is rounded half to even to `prec` digits and the exponent
    raised by the number of digits dropped (one more when the rounding
    carries into a new digit).
   */
  function RoundTo(d: Decimal, prec: nat): (r: Decimal)
    requires prec >= 1
    ensures r.negative == d.negative
    ensures r.coefficient < Pow10(prec)
    ensures d.coefficient < Pow10(prec) ==> r == d
    ensures r.coefficient == 0 <==> d.coefficient == 0
    ensures d.coefficient >= Pow10(prec) ==> r.exponent > d.exponent
    ensures ExponentRaised(r, d, prec)
    ensures WithinHalfUnit(r, d, prec)
    ensures ExactIn(d.coefficient, prec) ==> Value(r) == Value(d)
  {
    if d.coefficient < Pow10(prec) then d
    else
      RoundBounds(d.coefficient, prec);
      var k := |NatToString(d.coefficient)| - prec;
      var q := RoundDiv(d.coefficient, Pow10(k));
      if q == Pow10(prec) then
        var r := Decimal(d.negative, Pow10(prec - 1), d.exponent + k + 1);
        RoundCarry(d, prec, k, q, r);
        r
      else
        var r := Decimal(d.negative, q, d.exponent + k);
        RoundNoCarry(d, prec, k, q, r);
        r
  }

  /** The quotient reached `10^prec`: the coefficient becomes `10^(prec - 1)`, one place higher. */
  lemma RoundCarry(d: Decimal, prec: nat, k: nat, q: nat, r: Decimal)
    requires prec >= 1 && d.coefficient >= Pow10(prec) && k == |NatToString(d.coefficient)| - prec
    requires q == RoundDiv(d.coefficient, Pow10(k)) && q == Pow10(prec)
    requires r == Decimal(d.negative, Pow10(prec - 1), d.exponent + k + 1)
    ensures 0 < r.coefficient < Pow10(prec)
    ensures ExponentRaised(r, d, prec) && WithinHalfUnit(r, d, prec)
    ensures ExactIn(d.coefficient, prec) ==> Value(r) == Value(d)
  {
    RoundBounds(d.coefficient, prec);
    assert DroppedDigits(d.coefficient, prec) == k;
    HalfEven(d.coefficient, Pow10(k), q);
    Pow10Monotone(prec - 1, prec);
    Carry(prec, k);
    ExactNoCarry(d, prec, k, q);
  }

  /** No carry: the quotient itself, with the exponent raised by the digits dropped. */
  lemma RoundNoCarry(d: Decimal, prec: nat, k: nat, q: nat, r: Decimal)
    requires prec >= 1 && d.coefficient >= Pow10(prec) && k == |NatToString(d.coefficient)| - prec
    requires q == RoundDiv(d.coefficient, Pow10(k)) && q != Pow10(prec)
    requires r == Decimal(d.negative, q, d.exponent + k)
    ensures 0 < r.coefficient < Pow10(prec)
    ensures ExponentRaised(r, d, prec) && WithinHalfUnit(r, d, prec)
    ensures ExactIn(d.coefficient, prec) ==> Value(r) == Value(d)
  {
    QuotientBounds(d.coefficient, prec, k, q);
    HalfEven(d.coefficient, Pow10(k), q);
    assert r.coefficient * Pow10(r.exponent - d.exponent) == q * Pow10(k);
    RoundedValue(d, k, q, r);
  }

  /** Without a carry the rounded quotient keeps `prec` digits or fewer and is not zero. */
  lemma QuotientBounds(c: nat, prec: nat, k: nat, q: nat)
    requires prec >= 1 && c >= Pow10(prec) && k == |NatToString(c)| - prec
    requires q == RoundDiv(c, Pow10(k)) && q != Pow10(prec)
    ensures DroppedDigits(c, prec) == k
    ensures 0 < q < Pow10(prec)
  {
    QuotientRange(c, prec, k);
  }

  /** Dropping the `k` trailing digits leaves exactly `prec` digits. */
  lemma QuotientRange(c: nat, prec: nat, k: nat)
    requires prec >= 1 && c >= Pow10(prec) && k == |NatToString(c)| - prec
    ensures DroppedDigits(c, prec) == k
    ensures Pow10(prec - 1) <= c / Pow10(k) < Pow10(prec)
  {
    RoundBounds(c, prec);
    Pow10Add(k, prec);
    Pow10Add(k, prec - 1);
    DivBounds(c, Pow10(k), Pow10(prec - 1), Pow10(prec));
  }

  /** When only zeros are dropped the quotient keeps `prec` digits, so there is no carry. */
  lemma ExactNoCarry(d: Decimal, prec: nat, k: nat, q: nat)
    requires prec >= 1 && d.coefficient >= Pow10(prec) && |NatToString(d.coefficient)| == k + prec
    requires q == RoundDiv(d.coefficient, Pow10(k)) && q == Pow10(prec)
    ensures d.coefficient % Pow10(k) != 0
  {
    RoundBounds(d.coefficient, prec);
    if d.coefficient % Pow10(k) == 0 {
      HalfEven(d.coefficient, Pow10(k), q);
      DivExact(d.coefficient, Pow10(k), q);
      assert false;
    }
  }

  /** Dividing out only zeros and raising the exponent to match keeps the value. */
  lemma RoundedValue(d: Decimal, k: nat, q: nat, r: Decimal)
    requires q * Pow10(k) == d.coefficient || d.coefficient % Pow10(k) != 0
    requires r == Decimal(d.negative, q, d.exponent + k)
    ensures d.coefficient % Pow10(k) == 0 ==> Value(r) == Value(d)
  {
    if d.coefficient % Pow10(k) == 0 {
      ValueShift(d.negative, q, r.exponent, k, d.coefficient, d.exponent);
    }
  }

  lemma DivExact(c: nat, p: nat, q: nat)
    requires p > 0 && q * p == c
    ensures c / p == q
  {
    assert p * q == c && p * (q + 1) == c + p;
    DivBounds(c, p, q, q + 1);
  }

  /** Rounding under the default context. */
  function Round(d: Decimal): (r: Decimal)
    ensures r.negative == d.negative
    ensures r.coefficient < Pow10(Precision)
    ensures d.coefficient < Pow10(Precision) ==> r == d
    ensures r.coefficient == 0 <==> d.coefficient == 0
    ensures ExponentRaised(r, d, Precision)
    ensures WithinHalfUnit(r, d, Precision)
    ensures ExactIn(d.coefficient, Precision) ==> Value(r) == Value(d)
  {
    RoundTo(d, Precision)
  }

  /** The product of `a` and `b` before rounding. */
  function ExactProduct(a: Decimal, b: Decimal): (r: Decimal)
    ensures Value(r) == Value(a) * Value(b)
  {
    var r := Decimal(a.negative != b.negative, a.coefficient * b.coefficient, a.exponent + b.exponent);
    ProductMagnitude(a, b);
    SignedProduct(a.negative, b.negative, Magnitude(a), Magnitude(b), Magnitude(r), Value(a), Value(b), Value(r));
    r
  }

  lemma ProductMagnitude(a: Decimal, b: Decimal)
    ensures Magnitude(Decimal(a.negative != b.negative, a.coefficient * b.coefficient, a.exponent + b.exponent))
      == Magnitude(a) * Magnitude(b)
  {
    ScaledProduct(a.coefficient, b.coefficient, a.exponent, b.exponent);
  }

  lemma SignedProduct(na: bool, nb: bool, ma: real, mb: real, mr: real, va: real, vb: real, vr: real)
    requires mr == ma * mb
    requires va == (if na then -ma else ma) && vb == (if nb then -mb else mb)
    requires vr == (if na != nb then -mr else mr)
    ensures vr == va * vb
  {
  }

  /** `x` is within half of `u` of `y`. */
  predicate WithinHalf(x: real, y: real, u: real)
  {
    -u <= 2.0 * (x - y) <= u
  }

  /**
    `r` is the product of `a` and `b` rounded to the default precision:
    the exact product when rounding drops only zeros, and otherwise within
    half a unit of the last kept digit of it.
   */
  predicate RoundedProduct(a: Decimal, b: Decimal, r: Decimal)
  {
    var c := a.coefficient * b.coefficient;
    (ExactIn(c, Precision) ==> Value(r) == Value(a) * Value(b)) &&
    WithinHalf(Value(r), Value(a) * Value(b), Scaled(1, a.exponent + b.exponent + DroppedDigits(c, Precision)))
  }

  /** `a * b` under the default context: the exact product, rounded. */
  function Mul(a: Decimal, b: Decimal): (r: Decimal)
    ensures r.coefficient < Pow10(Precision)
    ensures r.negative == (a.negative != b.negative)
    ensures r.coefficient == 0 <==> a.coefficient == 0 || b.coefficient == 0
    ensures RoundedProduct(a, b, r)
  {
    ProductZero(a.coefficient, b.coefficient);
    var d := ExactProduct(a, b);
    var r := Round(d);
    ProductRounding(a, b, d, r);
    r
  }

  lemma ProductRounding(a: Decimal, b: Decimal, d: Decimal, r: Decimal)
    requires d == ExactProduct(a, b) && r == Round(d)
    ensures RoundedProduct(a, b, r)
  {
    HalfUnitValue(r, d, Precision);
  }

  /** Half a unit in the coefficient is half a unit of the last kept digit in value. */
  lemma HalfUnitValue(r: Decimal, d: Decimal, prec: nat)
    requires WithinHalfUnit(r, d, prec) && r.negative == d.negative
    ensures WithinHalf(Value(r), Value(d), Scaled(1, d.exponent + DroppedDigits(d.coefficient, prec)))
  {
    var k := DroppedDigits(d.coefficient, prec);
    assert d.exponent <= r.exponent;
    var s: nat := r.exponent - d.exponent;
    var x := r.coefficient * Pow10(s);
    assert -(Pow10(k) as int) <= 2 * (x as int - d.coefficient) <= Pow10(k);
    assert r == Decimal(d.negative, r.coefficient, r.exponent);
    HalfUnitAt(d.negative, r.coefficient, r.exponent, d.coefficient, d.exponent, s, x, k);
  }

  lemma HalfUnitAt(negative: bool, rc: nat, re: int, dc: nat, de: int, s: nat, x: nat, k: nat)
    requires s == re - de && x == rc * Pow10(s)
    requires -(Pow10(k) as int) <= 2 * (x as int - dc) <= Pow10(k)
    ensures WithinHalf(Value(Decimal(negative, rc, re)), Value(Decimal(negative, dc, de)), Scaled(1, de + k))
  {
    var w := Scaled(1, de);
    ScaledAt(rc, re, s, x, de, w);
    ScaledAt(dc, de, 0, dc, de, w);
    ScaledAt(1, de + k, k, Pow10(k), de, w);
    ScaledPositive(1, de);
    var r, d := Decimal(negative, rc, re), Decimal(negative, dc, de);
    HalfBound(negative, Value(r), Value(d), Magnitude(r), Magnitude(d), x, dc, Pow10(k), w, Scaled(1, de + k));
  }

  /** `c * 10^e`, written at the lower exponent `e' == e - m` with `m` zeros appended, is `c'` units of 10^e'. */
  lemma ScaledAt(c: nat, e: int, m: nat, c': nat, e': int, w: real)
    requires c' == c * Pow10(m) && e' == e - m && w == Scaled(1, e')
    ensures Scaled(c, e) == (c' as real) * w
  {
    ScaledShift(c, e, m);
    ScaledConst(c', 1, e');
    assert c' * 1 == c';
  }

  lemma HalfBound(negative: bool, vr: real, vd: real, mr: real, md: real, x: nat, c: nat, p: nat, w: real, u: real)
    requires w > 0.0 && mr == (x as real) * w && md == (c as real) * w && u == (p as real) * w
    requires vr == (if negative then -mr else mr) && vd == (if negative then -md else md)
    requires -(p as int) <= 2 * (x as int - c) <= p
    ensures WithinHalf(vr, vd, u)
  {
    var z := 2 * (x as int - c);
    var zw, pw := (z as real) * w, (p as real) * w;
    ScaleBound(z, p, w, zw, pw);
    ScaledDifference(mr, md, x, c, z, w, zw);
    assert -pw <= zw <= pw;
    if negative {
      assert 2.0 * (vr - vd) == -zw;
    } else {
      assert 2.0 * (vr - vd) == zw;
    }
  }

  lemma ScaleBound(z: int, p: nat, w: real, zw: real, pw: real)
    requires w > 0.0 && -(p as int) <= z <= p
    requires zw == (z as real) * w && pw == (p as real) * w
    ensures -pw <= zw <= pw
  {
  }

  lemma ScaledDifference(mr: real, md: real, x: nat, c: nat, z: int, w: real, zw: real)
    requires mr == (x as real) * w && md == (c as real) * w && z == 2 * (x as int - c)
    requires zw == (z as real) * w
    ensures 2.0 * (mr - md) == zw
  {
  }

  /**
    `d % 1` (Decimal.__mod__): the remainder of truncating division, with
    the sign of `d`; signals DivisionImpossible when the integer quotient
    needs more than `Precision` digits.
   */
  function RemainderByOne(d: Decimal): (r: Result<Decimal, DecimalError>)
    ensures r.Err? <==> IntegerMagnitude(d) >= Pow10(Precision)
    ensures r.Err? ==> r.error == DivisionImpossible
    ensures r.Ok? ==> r.value.negative == d.negative
    ensures r.Ok? ==> (r.value.coefficient == 0 <==> Value(d) == ToInt(d) as real)
  {
    WholeIffIntegral(d);
    if IntegerMagnitude(d) >= Pow10(Precision) then Err(DivisionImpossible)
    else if d.exponent >= 0 then Ok(Decimal(d.negative, 0, 0))
    else Ok(Round(Decimal(d.negative, d.coefficient % Pow10(-d.exponent), d.exponent)))
  }

  /** The exponent as `"%+d"` prints it. */
  function ExponentText(x: int): string
  {
    if x >= 0 then "+" + NatToString(x) else "-" + NatToString(-x)
  }

  /** An integer part, then "." and the fraction digits when there is a fraction. */
  function Mantissa(intPart: string, fracPart: Option<string>): string
  {
    intPart + (if fracPart.Some? then "." + fracPart.value else "")
  }

  /** Sign, mantissa, then "E" and the exponent's text when there is one. */
  function Render(negative: bool, mantissa: string, exp: Option<string>): string
  {
    (if negative then "-" else "") + mantissa + (if exp.Some? then "E" + exp.value else "")
  }

  /** `str(d)` prints no exponent: the exponent is not positive and the adjusted exponent is at least -6. */
  predicate IsPlain(d: Decimal)
  {
    d.exponent <= 0 && d.exponent + |NatToString(d.coefficient)| > -6
  }

  /** `str(d)`: Decimal.__str__, the to-scientific-string conversion with a capital 'E'. */
  function ToSciString(d: Decimal): (r: string)
    ensures |r| >= 1 && (r[0] == '-' <==> d.negative)
  {
    var digits := NatToString(d.coefficient);
    var leftDigits := d.exponent + |digits|;
    if IsPlain(d) then
      if leftDigits <= 0 then Render(d.negative, Mantissa("0", Some(Zeros(-leftDigits) + digits)), None)
      else if leftDigits >= |digits| then Render(d.negative, Mantissa(digits + Zeros(leftDigits - |digits|), None), None)
      else Render(d.negative, Mantissa(digits[..leftDigits], Some(digits[leftDigits..])), None)
    else
      Render(d.negative, Mantissa(digits[..1], if |digits| > 1 then Some(digits[1..]) else None), Some(ExponentText(leftDigits - 1)))
  }

  /** An exponent: an optional sign and at least one digit. */
  function ParseExponent(t: string): Option<int>
  {
    var signed := |t| > 0 && (t[0] == '+' || t[0] == '-');
    var digits := if signed then t[1..] else t;
    if |digits| >= 1 && AllDigits(digits) then
      Some(if signed && t[0] == '-' then -(DigitsValue(digits) as int) else DigitsValue(digits))
    else None
  }

  /** An unsigned numeral: coefficient digits and the exponent of the last digit. */
  datatype Numeral = Numeral(coefficient: nat, exponent: int)

  /** Digits with at most one '.', at least one digit in all. */
  function ParseMantissa(m: string): Option<Numeral>
  {
    var dot := FirstIndex(m, '.', '.');
    var intPart := m[..dot];
    var fracPart := if dot < |m| then m[dot + 1..] else "";
    if AllDigits(intPart) && AllDigits(fracPart) && |intPart| + |fracPart| >= 1 then
      Some(Numeral(DigitsValue(intPart + fracPart), -|fracPart|))
    else None
  }

  /** A mantissa, then optionally 'e' or 'E' and an exponent. */
  function ParseUnsigned(body: string): Option<Numeral>
  {
    var e := FirstIndex(body, 'e', 'E');
    var mantissa := ParseMantissa(body[..e]);
    var exp := if e < |body| then ParseExponent(body[e + 1..]) else Some(0);
    if mantissa.Some? && exp.Some? then
      Some(Numeral(mantissa.value.coefficient, mantissa.value.exponent + exp.value))
    else None
  }

  /**
    `Decimal(s)` for finite numeric strings: an optional sign, then an
    unsigned numeral. Anything else signals ConversionSyntax.
   */
  function Parse(s: string): (r: Result<Decimal, DecimalError>)
    ensures r.Err? ==> r.error == ConversionSyntax
    ensures r.Ok? ==> |s| >= 1 && (r.value.negative <==> s[0] == '-')
    ensures |s| == 0 ==> r.Err?
  {
    var signed := |s| > 0 && (s[0] == '+' || s[0] == '-');
    var n := ParseUnsigned(if signed then s[1..] else s);
    if n.Some? then Ok(Decimal(signed && s[0] == '-', n.value.coefficient, n.value.exponent))
    else Err(ConversionSyntax)
  }

  /** Text that starts with anything but a sign, a digit or '.' is not a numeral. */
  lemma ParseLeadingLetter(t: string)
    requires |t| >= 1 && !IsDigit(t[0]) && t[0] !in "+-.eE"
    ensures Parse(t) == Err(ConversionSyntax)
  {
    var e := FirstIndex(t, 'e', 'E');
    if e > 0 {
      var m := t[..e];
      assert m[0] == t[0];
      var dot := FirstIndex(m, '.', '.');
      assert m[..dot][0] == t[0];
    }
  }

  /** Reading back the exponent `str` prints gives the exponent. */
  lemma ExponentRoundTrip(x: int)
    ensures ParseExponent(ExponentText(x)) == Some(x)
  {
    var n: nat := if x >= 0 then x else -x;
    var t := ExponentText(x);
    assert t == [if x >= 0 then '+' else '-'] + NatToString(n);
    SignedDigits(if x >= 0 then '+' else '-', n, t);
  }

  lemma SignedDigits(sign: char, n: nat, t: string)
    requires (sign == '+' || sign == '-') && t == [sign] + NatToString(n)
    ensures ParseExponent(t) == Some(if sign == '-' then -(n as int) else n as int)
  {
    assert t[1..] == NatToString(n);
    NatToStringValue(n);
  }

  lemma DigitsFree(t: string, c: char, c': char)
    requires AllDigits(t) && !IsDigit(c) && !IsDigit(c')
    ensures forall i :: 0 <= i < |t| ==> t[i] != c && t[i] != c'
  {
  }

  /** Digits, '.', digits reads back as the digits' value with one negative exponent per fraction digit. */
  lemma FractionRoundTrip(intPart: string, fracPart: string, c: nat, e: int)
    requires AllDigits(intPart) && AllDigits(fracPart) && |intPart| + |fracPart| >= 1
    requires AllDigits(intPart + fracPart) && c == DigitsValue(intPart + fracPart) && e == -|fracPart|
    ensures ParseMantissa(Mantissa(intPart, Some(fracPart))) == Some(Numeral(c, e))
  {
    var m := Mantissa(intPart, Some(fracPart));
    assert m == intPart + ['.'] + fracPart;
    FractionAt(m, intPart, fracPart, c, e);
  }

  lemma FractionAt(m: string, intPart: string, fracPart: string, c: nat, e: int)
    requires AllDigits(intPart) && AllDigits(fracPart) && |intPart| + |fracPart| >= 1
    requires AllDigits(intPart + fracPart) && c == DigitsValue(intPart + fracPart) && e == -|fracPart|
    requires m == intPart + ['.'] + fracPart
    ensures ParseMantissa(m) == Some(Numeral(c, e))
  {
    DigitsFree(intPart, '.', '.');
    FirstIndexAt(intPart, '.', fracPart, '.', '.');
    AroundSeparator(intPart, '.', fracPart);
  }

  /** Digits alone read back as their value. */
  lemma WholeRoundTrip(intPart: string, c: nat)
    requires AllDigits(intPart) && |intPart| >= 1 && c == DigitsValue(intPart)
    ensures ParseMantissa(Mantissa(intPart, None)) == Some(Numeral(c, 0))
  {
    DigitsFree(intPart, '.', '.');
    FirstIndexNone(intPart, '.', '.');
    WholePrefix(intPart);
    AppendEmpty(intPart);
  }

  lemma AppendEmpty(s: string)
    ensures s + "" == s
  {
  }

  /** A mantissa has no exponent marker and starts with a digit or '.'. */
  predicate PlainMantissa(m: string)
  {
    |m| >= 1 && (IsDigit(m[0]) || m[0] == '.') && forall i :: 0 <= i < |m| ==> m[i] != 'e' && m[i] != 'E'
  }

  lemma MantissaShape(intPart: string, frac: Option<string>)
    requires AllDigits(intPart) && (frac.Some? ==> AllDigits(frac.value))
    requires |intPart| >= 1 || frac.Some?
    ensures PlainMantissa(Mantissa(intPart, frac))
  {
    var m := Mantissa(intPart, frac);
    forall i | 0 <= i < |m| ensures m[i] != 'e' && m[i] != 'E' {
      if i < |intPart| {
        assert IsDigit(intPart[i]);
      } else if i > |intPart| {
        assert m[i] == frac.value[i - |intPart| - 1];
        assert IsDigit(frac.value[i - |intPart| - 1]);
      }
    }
    if |intPart| >= 1 {
      assert m[0] == intPart[0];
    }
  }

  /** Without an exponent, the numeral is the mantissa's. */
  lemma UnsignedWithoutExponent(m: string, c: nat, e: int)
    requires PlainMantissa(m) && ParseMantissa(m) == Some(Numeral(c, e))
    ensures ParseUnsigned(m) == Some(Numeral(c, e))
  {
    FirstIndexNone(m, 'e', 'E');
    WholePrefix(m);
  }

  /** With "E" and an exponent, the exponent adds to the mantissa's. */
  lemma UnsignedWithExponent(body: string, m: string, c: nat, e: int, t: string, x: int, y: int)
    requires PlainMantissa(m) && ParseMantissa(m) == Some(Numeral(c, e)) && ParseExponent(t) == Some(x)
    requires body == m + ['E'] + t && y == e + x
    ensures ParseUnsigned(body) == Some(Numeral(c, y))
  {
    FirstIndexAt(m, 'E', t, 'e', 'E');
    AroundSeparator(m, 'E', t);
  }

  /** The sign in front of an unsigned numeral. */
  lemma ParseSigned(negative: bool, body: string, c: nat, e: int, s: string)
    requires |body| >= 1 && (IsDigit(body[0]) || body[0] == '.')
    requires ParseUnsigned(body) == Some(Numeral(c, e))
    requires s == (if negative then "-" else "") + body
    ensures Parse(s) == Ok(Decimal(negative, c, e))
  {
    if negative {
      assert s[0] == '-' && s[1..] == body;
    } else {
      assert s == body;
    }
  }

  /** `Decimal(text)` reads back a sign and a mantissa without an exponent. */
  lemma ParseRenderPlain(negative: bool, m: string, c: nat, e: int, s: string)
    requires PlainMantissa(m) && ParseMantissa(m) == Some(Numeral(c, e))
    requires s == Render(negative, m, None)
    ensures Parse(s) == Ok(Decimal(negative, c, e))
  {
    UnsignedWithoutExponent(m, c, e);
    AppendEmpty((if negative then "-" else "") + m);
    ParseSigned(negative, m, c, e, s);
  }

  /** `Decimal(text)` reads back a sign, a mantissa and an exponent, which adds to the mantissa's. */
  lemma ParseRenderExponent(negative: bool, m: string, c: nat, e: int, t: string, x: int, y: int, s: string)
    requires PlainMantissa(m) && ParseMantissa(m) == Some(Numeral(c, e)) && ParseExponent(t) == Some(x)
    requires s == Render(negative, m, Some(t)) && y == e + x
    ensures Parse(s) == Ok(Decimal(negative, c, y))
  {
    var body := m + ['E'] + t;
    UnsignedWithExponent(body, m, c, e, t, x, y);
    RenderExponent(negative, m, t);
    assert body[0] == m[0];
    ParseSigned(negative, body, c, y, s);
  }

  lemma RenderExponent(negative: bool, m: string, t: string)
    ensures Render(negative, m, Some(t)) == (if negative then "-" else "") + (m + ['E'] + t)
  {
    var sign := if negative then "-" else "";
    assert sign + m + ("E" + t) == sign + (m + ['E'] + t);
  }

  /** `Decimal(str(d))` is `d` again: coefficient, exponent and sign. */
  lemma SciStringRoundTrip(d: Decimal)
    ensures Parse(ToSciString(d)) == Ok(d)
  {
    var digits := NatToString(d.coefficient);
    var leftDigits := d.exponent + |digits|;
    if IsPlain(d) {
      if leftDigits <= 0 {
        PlainSmallRoundTrip(d);
      } else if leftDigits >= |digits| {
        PlainWholeRoundTrip(d);
      } else {
        PlainSplitRoundTrip(d);
      }
    } else {
      ScientificRoundTrip(d);
    }
  }

  /** "0." and leading zeros before the digits. */
  lemma PlainSmallRoundTrip(d: Decimal)
    requires IsPlain(d) && d.exponent + |NatToString(d.coefficient)| <= 0
    ensures Parse(ToSciString(d)) == Ok(d)
  {
    var digits := NatToString(d.coefficient);
    var z := -(d.exponent + |digits|);
    var F := Zeros(z) + digits;
    var m := Mantissa("0", Some(F));
    var s := ToSciString(d);
    assert s == Render(d.negative, m, None);
    assert "0" + F == Zeros(z + 1) + digits;
    LeadingZeros(z + 1, digits);
    NatToStringValue(d.coefficient);
    FractionRoundTrip("0", F, d.coefficient, d.exponent);
    MantissaShape("0", Some(F));
    ParseRenderPlain(d.negative, m, d.coefficient, d.exponent, s);
  }

  /** An exponent of zero: the digits alone. */
  lemma PlainWholeRoundTrip(d: Decimal)
    requires IsPlain(d) && d.exponent + |NatToString(d.coefficient)| >= |NatToString(d.coefficient)|
    ensures Parse(ToSciString(d)) == Ok(d)
  {
    var digits := NatToString(d.coefficient);
    assert d.exponent == 0;
    assert digits + Zeros(0) == digits;
    var m := Mantissa(digits, None);
    var s := ToSciString(d);
    assert s == Render(d.negative, m, None);
    NatToStringValue(d.coefficient);
    WholeRoundTrip(digits, d.coefficient);
    MantissaShape(digits, None);
    ParseRenderPlain(d.negative, m, d.coefficient, 0, s);
  }

  /** The point inside the digits. */
  lemma PlainSplitRoundTrip(d: Decimal)
    requires IsPlain(d)
    requires 0 < d.exponent + |NatToString(d.coefficient)| < |NatToString(d.coefficient)|
    ensures Parse(ToSciString(d)) == Ok(d)
  {
    var digits := NatToString(d.coefficient);
    var l := d.exponent + |digits|;
    var m := Mantissa(digits[..l], Some(digits[l..]));
    var s := ToSciString(d);
    assert s == Render(d.negative, m, None);
    assert digits[..l] + digits[l..] == digits;
    NatToStringValue(d.coefficient);
    FractionRoundTrip(digits[..l], digits[l..], d.coefficient, d.exponent);
    MantissaShape(digits[..l], Some(digits[l..]));
    ParseRenderPlain(d.negative, m, d.coefficient, d.exponent, s);
  }

  /** One digit, the rest after '.', then the adjusted exponent. */
  lemma ScientificRoundTrip(d: Decimal)
    requires !IsPlain(d)
    ensures Parse(ToSciString(d)) == Ok(d)
  {
    if |NatToString(d.coefficient)| > 1 {
      ScientificFractionRoundTrip(d);
    } else {
      ScientificDigitRoundTrip(d);
    }
  }

  lemma ScientificFractionRoundTrip(d: Decimal)
    requires !IsPlain(d) && |NatToString(d.coefficient)| > 1
    ensures Parse(ToSciString(d)) == Ok(d)
  {
    var digits := NatToString(d.coefficient);
    var x := d.exponent + |digits| - 1;
    var e := -(|digits| - 1);
    var t := ExponentText(x);
    var s := ToSciString(d);
    var m := Mantissa(digits[..1], Some(digits[1..]));
    assert s == Render(d.negative, m, Some(t));
    assert digits[..1] + digits[1..] == digits;
    NatToStringValue(d.coefficient);
    FractionRoundTrip(digits[..1], digits[1..], d.coefficient, e);
    MantissaShape(digits[..1], Some(digits[1..]));
    ExponentRoundTrip(x);
    ParseRenderExponent(d.negative, m, d.coefficient, e, t, x, d.exponent, s);
  }

  lemma ScientificDigitRoundTrip(d: Decimal)
    requires !IsPlain(d) && |NatToString(d.coefficient)| == 1
    ensures Parse(ToSciString(d)) == Ok(d)
  {
    var digits := NatToString(d.coefficient);
    var x := d.exponent;
    var t := ExponentText(x);
    var s := ToSciString(d);
    var m := Mantissa(digits, None);
    assert digits[..1] == digits;
    assert s == Render(d.negative, m, Some(t));
    NatToStringValue(d.coefficient);
    WholeRoundTrip(digits, d.coefficient);
    MantissaShape(digits, None);
    ExponentRoundTrip(x);
    ParseRenderExponent(d.negative, m, d.coefficient, 0, t, x, d.exponent, s);
  }
}
