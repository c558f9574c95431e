/**
  `format_number` (crypto_assets/exchange/utils.py): turns an int, bool,
  float, str or Decimal into an int when it is whole and otherwise into the
  text handed to `float()`, with trailing zeros and a dangling '.' removed.
  The final `float()` conversion is left abstract: a float result carries
  the text it is made from.
 */
module ExchangeUtils {
  import opened Wrappers
  import opened Text
  import opened Numerals
  import opened Decimals

  /** The argument of `format_number`, by its Python type. */
  datatype Number =
    | IntNumber(i: int)
    | BoolNumber(b: bool)
    | FloatNumber(repr: string)   // the text `str(f)` prints for the float
    | StrNumber(s: string)
    | DecimalNumber(d: Decimal)

  /** What `format_number` returns: an int, or `float(text)`. */
  datatype Formatted = IntResult(i: int) | FloatResult(text: string)

  /** `str(value)` for the types that are converted through text (`bool` is a subclass of `int`). */
  function NumberText(v: Number): string
    requires !v.DecimalNumber?
  {
    match v
    case IntNumber(i) => IntToString(i)
    case BoolNumber(b) => if b then "True" else "False"
    case FloatNumber(repr) => repr
    case StrNumber(s) => s
  }

  /** The first step of `format_number`: `Decimal(str(value))`, or the Decimal itself. */
  function Canonical(v: Number): (r: Result<Decimal, DecimalError>)
    ensures v.DecimalNumber? ==> r == Ok(v.d)
    ensures r.Err? ==> r.error == ConversionSyntax
  {
    if v.DecimalNumber? then Ok(v.d) else Parse(NumberText(v))
  }

  /** `r` is `text` less some trailing characters, each a '0' or a '.'. */
  predicate TrimmedOf(r: string, text: string)
  {
    |r| <= |text| && r == text[..|r|] && forall i :: |r| <= i < |text| ==> text[i] == '0' || text[i] == '.'
  }

  /** `text.rstrip("0").rstrip(".")`. */
  function StripZeros(text: string): (r: string)
    ensures TrimmedOf(r, text)
    ensures r == [] || r[|r| - 1] != '.'
  {
    RStrip(RStrip(text, '0'), '.')
  }

  /** `format_number` on a Decimal, as written: the `% 1` test, then `int` or the stripped text. */
  function FormatDecimalAsWritten(d: Decimal): (r: Result<Formatted, DecimalError>)
    ensures r.Err? <==> IntegerMagnitude(d) >= Pow10(Precision)
    ensures r.Err? ==> r.error == DivisionImpossible
    ensures r.Ok? ==> (r.value.IntResult? <==> IsWhole(d))
    ensures r.Ok? && r.value.IntResult? ==> r.value.i as real == Value(d)
  {
    WholeIffIntegral(d);
    var r := RemainderByOne(d);
    if r.Err? then Err(r.error)
    else if r.value.coefficient == 0 then Ok(IntResult(ToInt(d)))
    else Ok(FloatResult(FloatTextAsWritten(ToSciString(d))))
  }

  /** The argument of `float()` as written: the text stripped when it has a '.'. */
  function FloatTextAsWritten(text: string): (r: string)
    ensures '.' !in text ==> r == text
    ensures TrimmedOf(r, text)
    ensures '.' in text ==> r == [] || r[|r| - 1] != '.'
  {
    if '.' in text then StripZeros(text) else text
  }

  /** `format_number(value)`, as written. */
  function FormatNumberAsWritten(v: Number): (r: Result<Formatted, DecimalError>)
    ensures Canonical(v).Err? ==> r == Err(ConversionSyntax)
    ensures Canonical(v).Ok? ==> (r.Err? <==> IntegerMagnitude(Canonical(v).value) >= Pow10(Precision))
    ensures r.Ok? ==> (r.value.IntResult? <==> IsWhole(Canonical(v).value))
    ensures r.Ok? && r.value.IntResult? ==> r.value.i as real == Value(Canonical(v).value)
  {
    match Canonical(v)
    case Err(e) => Err(e)
    case Ok(d) => FormatDecimalAsWritten(d)
  }

  /** The zeros and '.' stripped from the mantissa only, leaving an exponent "E..." alone. */
  function StripMantissaZeros(text: string): string
  {
    var e := FirstIndex(text, 'E', 'E');
    StripZeros(text[..e]) + text[e..]
  }

  /**
    `format_number` on a Decimal as evidently intended: whole exactly when no
    fractional digit is non-zero (so no quotient limit applies), and only the
    mantissa loses its trailing zeros.
   */
  function FormatDecimal(d: Decimal): (r: Formatted)
    ensures r.IntResult? <==> IsWhole(d)
    ensures r.IntResult? ==> r.i as real == Value(d)
  {
    WholeIffIntegral(d);
    if IsWhole(d) then IntResult(ToInt(d))
    else
      FloatResult(FloatText(ToSciString(d)))
  }

  /** The argument of `float()` as evidently intended: only the mantissa stripped. */
  function FloatText(text: string): string
  {
    if '.' in text then StripMantissaZeros(text) else text
  }

  /** `format_number(value)` as evidently intended. */
  function FormatNumber(v: Number): (r: Result<Formatted, DecimalError>)
    ensures r.Err? <==> Canonical(v).Err?
    ensures r.Err? ==> r.error == ConversionSyntax
    ensures r.Ok? ==> (r.value.IntResult? <==> IsWhole(Canonical(v).value))
    ensures r.Ok? && r.value.IntResult? ==> r.value.i as real == Value(Canonical(v).value)
  {
    match Canonical(v)
    case Err(e) => Err(e)
    case Ok(d) => Ok(FormatDecimal(d))
  }

  /** `Decimal(str(i))` is the integer itself, with exponent 0. */
  lemma IntCanonical(i: int)
    ensures Canonical(IntNumber(i)) == Ok(Decimal(i < 0, if i < 0 then -i else i, 0))
  {
    var n: nat := if i < 0 then -i else i;
    var digits := NatToString(n);
    var m := Mantissa(digits, None);
    var s := IntToString(i);
    AppendEmpty(digits);
    AppendEmpty((if i < 0 then "-" else "") + m);
    assert s == Render(i < 0, m, None);
    NatToStringValue(n);
    WholeRoundTrip(digits, n);
    MantissaShape(digits, None);
    ParseRenderPlain(i < 0, m, n, 0, s);
    IntText(i);
  }

  /** An int input reaches the parser as its `str` text. */
  lemma IntText(i: int)
    ensures Canonical(IntNumber(i)) == Parse(IntToString(i))
  {
  }

  /** An int below 10^28 in magnitude comes back unchanged. */
  lemma IntReturnsItself(i: int)
    requires (if i < 0 then -i else i) < Pow10(Precision)
    ensures FormatNumberAsWritten(IntNumber(i)) == Ok(IntResult(i))
  {
    IntCanonical(i);
    IntFormats(i);
  }

  /** An integer-valued Decimal below the quotient limit passes the `% 1` test and comes back as the int. */
  lemma IntFormats(i: int)
    requires (if i < 0 then -i else i) < Pow10(Precision)
    ensures FormatDecimalAsWritten(Decimal(i < 0, if i < 0 then -i else i, 0)) == Ok(IntResult(i))
  {
    var d := Decimal(i < 0, if i < 0 then -i else i, 0);
    assert IntegerMagnitude(d) == d.coefficient * 1;
    assert RemainderByOne(d) == Ok(Decimal(d.negative, 0, 0));
  }

  /** An int of 10^28 or more in magnitude makes `value % 1` signal DivisionImpossible. */
  lemma LargeIntRejected(i: int)
    requires (if i < 0 then -i else i) >= Pow10(Precision)
    ensures FormatNumberAsWritten(IntNumber(i)) == Err(DivisionImpossible)
  {
    IntCanonical(i);
  }

  /** With the exact whole-number test every int comes back unchanged. */
  lemma IntReturnsItselfCorrected(i: int)
    ensures FormatNumber(IntNumber(i)) == Ok(IntResult(i))
  {
    IntCanonical(i);
  }

  /** `str(True)` and `str(False)` are not numerals: `Decimal` signals ConversionSyntax. */
  lemma BoolRejected(b: bool)
    ensures FormatNumberAsWritten(BoolNumber(b)) == Err(ConversionSyntax)
    ensures FormatNumber(BoolNumber(b)) == Err(ConversionSyntax)
  {
    var t := NumberText(BoolNumber(b));
    assert t[0] == (if b then 'T' else 'F');
    ParseLeadingLetter(t);
  }

  /** A Decimal's own text is read back as that Decimal, so str and Decimal inputs agree. */
  lemma StrOfDecimal(d: Decimal)
    ensures Canonical(StrNumber(ToSciString(d))) == Ok(d)
    ensures FormatNumberAsWritten(StrNumber(ToSciString(d))) == FormatNumberAsWritten(DecimalNumber(d))
  {
    var s := ToSciString(d);
    SciStringRoundTrip(d);
    StrCanonical(s);
  }

  /** A str input reaches the parser as it is. */
  lemma StrCanonical(s: string)
    ensures Canonical(StrNumber(s)) == Parse(s)
  {
  }

  /** The fraction digits left once trailing zeros are stripped, if any are left. */
  function StrippedFraction(frac: string): Option<string>
  {
    var f := RStrip(frac, '0');
    if f == [] then None else Some(f)
  }

  /** Stripping a mantissa removes the fraction's trailing zeros, and the '.' when nothing is left after it. */
  lemma StripMantissa(intPart: string, frac: string)
    requires AllDigits(intPart) && |intPart| >= 1 && AllDigits(frac)
    ensures StripZeros(Mantissa(intPart, Some(frac))) == Mantissa(intPart, StrippedFraction(frac))
  {
    var head := intPart + ".";
    assert Mantissa(intPart, Some(frac)) == head + frac;
    if RStrip(frac, '0') == [] {
      StripWholeFraction(intPart, frac, head);
    } else {
      StripPartOfFraction(intPart, frac, head);
    }
  }

  lemma StripWholeFraction(intPart: string, frac: string, head: string)
    requires AllDigits(intPart) && |intPart| >= 1
    requires head == intPart + "." && RStrip(frac, '0') == []
    ensures StripZeros(head + frac) == intPart
  {
    RStripTail(head, frac, '0');
    RStripTail(intPart, ".", '.');
  }

  lemma StripPartOfFraction(intPart: string, frac: string, head: string)
    requires AllDigits(frac) && head == intPart + "." && RStrip(frac, '0') != []
    ensures StripZeros(head + frac) == head + RStrip(frac, '0')
  {
    var f := RStrip(frac, '0');
    RStripAppend(head, frac, '0');
    assert (head + f)[|head + f| - 1] == frac[|f| - 1];
    RStripTail(head + f, [], '.');
    AppendEmpty(head + f);
  }

  /** The sign in front of a mantissa is untouched by stripping. */
  lemma StripSigned(negative: bool, intPart: string, frac: string)
    requires AllDigits(intPart) && |intPart| >= 1 && AllDigits(frac)
    ensures StripZeros((if negative then "-" else "") + Mantissa(intPart, Some(frac)))
      == (if negative then "-" else "") + Mantissa(intPart, StrippedFraction(frac))
  {
    var sign := if negative then "-" else "";
    var m := Mantissa(intPart, Some(frac));
    StripMantissa(intPart, frac);
    assert RStrip(m, '0') != [];
    RStripAppend(sign, m, '0');
    RStripAppend(sign, RStrip(m, '0'), '.');
  }

  lemma SignedNoMarker(negative: bool, m: string, head: string)
    requires PlainMantissa(m) && head == (if negative then "-" else "") + m
    ensures forall i :: 0 <= i < |head| ==> head[i] != 'E'
  {
    forall i | 0 <= i < |head| ensures head[i] != 'E' {
      if negative && i > 0 {
        assert head[i] == m[i - 1];
      } else if !negative {
        assert head[i] == m[i];
      }
    }
  }

  /** Only the mantissa of a rendered numeral is stripped; the exponent is kept as it is. */
  lemma StripMantissaRender(negative: bool, intPart: string, frac: string, exp: Option<string>, text: string)
    requires AllDigits(intPart) && |intPart| >= 1 && AllDigits(frac)
    requires text == Render(negative, Mantissa(intPart, Some(frac)), exp)
    ensures StripMantissaZeros(text) == Render(negative, Mantissa(intPart, StrippedFraction(frac)), exp)
  {
    var sign := if negative then "-" else "";
    var m := Mantissa(intPart, Some(frac));
    var head := sign + m;
    var tail := if exp.Some? then "E" + exp.value else "";
    assert text == head + tail;
    MantissaShape(intPart, Some(frac));
    SignedNoMarker(negative, m, head);
    if exp.Some? {
      assert text == head + ['E'] + exp.value;
      FirstIndexAt(head, 'E', exp.value, 'E', 'E');
      assert text[..|head|] == head && text[|head|..] == tail;
    } else {
      AppendEmpty(head);
      FirstIndexNone(head, 'E', 'E');
      assert text[..|head|] == head && text[|head|..] == tail;
    }
    StripSigned(negative, intPart, frac);
  }

  /** On text without an exponent the whole text is the mantissa, so both strippings agree. */
  lemma StripPlainRender(negative: bool, intPart: string, frac: string, text: string)
    requires AllDigits(intPart) && |intPart| >= 1 && AllDigits(frac)
    requires text == Render(negative, Mantissa(intPart, Some(frac)), None)
    ensures StripZeros(text) == StripMantissaZeros(text)
    ensures StripZeros(text) == Render(negative, Mantissa(intPart, StrippedFraction(frac)), None)
  {
    var sign := if negative then "-" else "";
    var m := Mantissa(intPart, Some(frac));
    AppendEmpty(sign + m);
    AppendEmpty(sign + Mantissa(intPart, StrippedFraction(frac)));
    StripSigned(negative, intPart, frac);
    StripMantissaRender(negative, intPart, frac, None, text);
  }

  lemma StrippedMantissa(intPart: string, frac: string, c: nat, e: int)
    requires AllDigits(intPart) && |intPart| >= 1 && AllDigits(frac)
    requires AllDigits(intPart + RStrip(frac, '0'))
    requires c == DigitsValue(intPart + RStrip(frac, '0')) && e == -|RStrip(frac, '0')|
    ensures PlainMantissa(Mantissa(intPart, StrippedFraction(frac)))
    ensures ParseMantissa(Mantissa(intPart, StrippedFraction(frac))) == Some(Numeral(c, e))
  {
    var f := RStrip(frac, '0');
    assert AllDigits(f) by {
      assert f == frac[..|f|];
    }
    if f == [] {
      assert intPart + f == intPart;
      WholeRoundTrip(intPart, c);
      MantissaShape(intPart, None);
    } else {
      FractionRoundTrip(intPart, f, c, e);
      MantissaShape(intPart, Some(f));
    }
  }

  /** The stripped zeros only scale the value of the digits. */
  lemma StrippedDigits(intPart: string, frac: string, kept: string, k: nat)
    requires AllDigits(intPart) && AllDigits(frac) && AllDigits(intPart + frac)
    requires kept == intPart + RStrip(frac, '0') && k == |frac| - |RStrip(frac, '0')|
    ensures AllDigits(kept)
    ensures DigitsValue(intPart + frac) == DigitsValue(kept) * Pow10(k)
  {
    var f := RStrip(frac, '0');
    assert frac == f + Zeros(k);
    assert intPart + frac == kept + Zeros(k);
    assert kept == (intPart + frac)[..|kept|];
    TrailingZeros(kept, k);
  }

  /**
    A rendered numeral whose mantissa has lost its trailing zeros reads back
    as a Decimal of the same value: the zeros only scaled the coefficient.
   */
  lemma StrippedReadsBack(negative: bool, intPart: string, frac: string, exp: Option<string>, x: int,
                          c: nat, e: int, text: string)
    requires AllDigits(intPart) && |intPart| >= 1 && AllDigits(frac) && AllDigits(intPart + frac)
    requires c == DigitsValue(intPart + frac) && e == x - |frac|
    requires exp.None? ==> x == 0
    requires exp.Some? ==> ParseExponent(exp.value) == Some(x)
    requires text == Render(negative, Mantissa(intPart, StrippedFraction(frac)), exp)
    ensures Parse(text).Ok? && Value(Parse(text).value) == Value(Decimal(negative, c, e))
  {
    var f := RStrip(frac, '0');
    var k := |frac| - |f|;
    var kept := intPart + f;
    StrippedDigits(intPart, frac, kept, k);
    var c' := DigitsValue(kept);
    var y := x - |f|;
    StrippedParses(negative, intPart, frac, exp, x, c', y, text);
    ValueShift(negative, c', y, k, c, e);
  }

  /** The stripped text is read back as the kept digits, scaled by the exponent. */
  lemma StrippedParses(negative: bool, intPart: string, frac: string, exp: Option<string>, x: int,
                       c: nat, y: int, text: string)
    requires AllDigits(intPart) && |intPart| >= 1 && AllDigits(frac)
    requires AllDigits(intPart + RStrip(frac, '0'))
    requires c == DigitsValue(intPart + RStrip(frac, '0')) && y == x - |RStrip(frac, '0')|
    requires exp.None? ==> x == 0
    requires exp.Some? ==> ParseExponent(exp.value) == Some(x)
    requires text == Render(negative, Mantissa(intPart, StrippedFraction(frac)), exp)
    ensures Parse(text) == Ok(Decimal(negative, c, y))
  {
    var e := -|RStrip(frac, '0')|;
    StrippedMantissa(intPart, frac, c, e);
    var m := Mantissa(intPart, StrippedFraction(frac));
    if exp.Some? {
      ParseRenderExponent(negative, m, c, e, exp.value, x, y, text);
    } else {
      assert y == e;
      ParseRenderPlain(negative, m, c, y, text);
    }
  }

  lemma HasPoint(negative: bool, intPart: string, frac: string, exp: Option<string>, text: string)
    requires text == Render(negative, Mantissa(intPart, Some(frac)), exp)
    ensures '.' in text
  {
    var sign := if negative then "-" else "";
    assert text[|sign| + |intPart|] == '.';
  }

  /** A rendered numeral with a fraction part, mantissa stripped, reads back with its value. */
  lemma FractionReadsBack(negative: bool, intPart: string, frac: string, exp: Option<string>, x: int,
                          c: nat, e: int, text: string)
    requires AllDigits(intPart) && |intPart| >= 1 && AllDigits(frac) && AllDigits(intPart + frac)
    requires c == DigitsValue(intPart + frac) && e == x - |frac|
    requires exp.None? ==> x == 0
    requires exp.Some? ==> ParseExponent(exp.value) == Some(x)
    requires text == Render(negative, Mantissa(intPart, Some(frac)), exp)
    ensures Parse(StripMantissaZeros(text)).Ok?
    ensures Value(Parse(StripMantissaZeros(text)).value) == Value(Decimal(negative, c, e))
  {
    StripMantissaRender(negative, intPart, frac, exp, text);
    StrippedReadsBack(negative, intPart, frac, exp, x, c, e, StripMantissaZeros(text));
  }

  /**
    The text of a Decimal with a fraction part: stripped, it reads back
    with the same value, and without an exponent the stripping as written
    gives the same text.
   */
  lemma FractionFloatText(negative: bool, intPart: string, frac: string, exp: Option<string>, x: int,
                          c: nat, e: int, text: string)
    requires AllDigits(intPart) && |intPart| >= 1 && AllDigits(frac) && AllDigits(intPart + frac)
    requires c == DigitsValue(intPart + frac) && e == x - |frac|
    requires exp.None? ==> x == 0
    requires exp.Some? ==> ParseExponent(exp.value) == Some(x)
    requires text == Render(negative, Mantissa(intPart, Some(frac)), exp)
    ensures Parse(FloatText(text)).Ok? && Value(Parse(FloatText(text)).value) == Value(Decimal(negative, c, e))
    ensures exp.None? ==> FloatTextAsWritten(text) == FloatText(text)
  {
    HasPoint(negative, intPart, frac, exp, text);
    FractionReadsBack(negative, intPart, frac, exp, x, c, e, text);
    if exp.None? {
      StripPlainRender(negative, intPart, frac, text);
    }
  }

  /** "0." then leading zeros and the digits. */
  lemma SmallFloatText(d: Decimal)
    requires IsPlain(d) && d.exponent + |NatToString(d.coefficient)| <= 0
    ensures Parse(FloatText(ToSciString(d))).Ok?
    ensures Value(Parse(FloatText(ToSciString(d))).value) == Value(d)
    ensures FloatTextAsWritten(ToSciString(d)) == FloatText(ToSciString(d))
  {
    var digits := NatToString(d.coefficient);
    var z := -(d.exponent + |digits|);
    var frac := Zeros(z) + digits;
    var text := ToSciString(d);
    assert text == Render(d.negative, Mantissa("0", Some(frac)), None);
    SmallFraction(d.coefficient, digits, z, frac);
    FractionFloatText(d.negative, "0", frac, None, 0, d.coefficient, d.exponent, text);
  }

  /** "0" then `z` zeros then the digits of `c` denote `c`. */
  lemma SmallFraction(c: nat, digits: string, z: nat, frac: string)
    requires digits == NatToString(c) && frac == Zeros(z) + digits
    ensures AllDigits(frac) && AllDigits("0" + frac) && c == DigitsValue("0" + frac)
  {
    assert "0" + frac == Zeros(z + 1) + digits;
    LeadingZeros(z + 1, digits);
    NatToStringValue(c);
  }

  /** The point inside the digits. */
  lemma SplitFloatText(d: Decimal)
    requires IsPlain(d)
    requires 0 < d.exponent + |NatToString(d.coefficient)| < |NatToString(d.coefficient)|
    ensures Parse(FloatText(ToSciString(d))).Ok?
    ensures Value(Parse(FloatText(ToSciString(d))).value) == Value(d)
    ensures FloatTextAsWritten(ToSciString(d)) == FloatText(ToSciString(d))
  {
    var digits := NatToString(d.coefficient);
    var l := d.exponent + |digits|;
    var text := ToSciString(d);
    assert text == Render(d.negative, Mantissa(digits[..l], Some(digits[l..])), None);
    assert digits[..l] + digits[l..] == digits;
    NatToStringValue(d.coefficient);
    FractionFloatText(d.negative, digits[..l], digits[l..], None, 0, d.coefficient, d.exponent, text);
  }

  /** One digit, '.', the other digits, then the exponent. */
  lemma ScientificFloatText(d: Decimal)
    requires !IsPlain(d) && |NatToString(d.coefficient)| > 1
    ensures Parse(FloatText(ToSciString(d))).Ok?
    ensures Value(Parse(FloatText(ToSciString(d))).value) == Value(d)
  {
    var digits := NatToString(d.coefficient);
    var x := d.exponent + |digits| - 1;
    var t := ExponentText(x);
    var text := ToSciString(d);
    assert text == Render(d.negative, Mantissa(digits[..1], Some(digits[1..])), Some(t));
    assert digits[..1] + digits[1..] == digits;
    NatToStringValue(d.coefficient);
    ExponentRoundTrip(x);
    FractionFloatText(d.negative, digits[..1], digits[1..], Some(t), x, d.coefficient, d.exponent, text);
  }

  lemma DigitsNoPoint(s: string)
    requires AllDigits(s)
    ensures '.' !in s
  {
    forall i | 0 <= i < |s|
      ensures s[i] != '.'
    {
      assert IsDigit(s[i]);
    }
  }

  lemma PointlessRender(negative: bool, digits: string, x: int, text: string)
    requires AllDigits(digits) && text == Render(negative, Mantissa(digits, None), Some(ExponentText(x)))
    ensures '.' !in text
  {
    var n: nat := if x >= 0 then x else -x;
    DigitsNoPoint(digits);
    DigitsNoPoint(NatToString(n));
    assert ExponentText(x) == (if x >= 0 then "+" else "-") + NatToString(n);
    assert '.' !in ExponentText(x);
    assert '.' !in Mantissa(digits, None);
  }

  /** A single digit and an exponent: there is no '.', and the text is `str(d)` itself. */
  lemma PointlessFloatText(d: Decimal)
    requires !IsPlain(d) && |NatToString(d.coefficient)| == 1
    ensures '.' !in ToSciString(d)
    ensures FloatText(ToSciString(d)) == ToSciString(d)
    ensures Parse(FloatText(ToSciString(d))) == Ok(d)
  {
    var digits := NatToString(d.coefficient);
    var x := d.exponent + |digits| - 1;
    var text := ToSciString(d);
    assert digits[..1] == digits;
    assert text == Render(d.negative, Mantissa(digits, None), Some(ExponentText(x)));
    PointlessRender(d.negative, digits, x, text);
    SciStringRoundTrip(d);
  }

  /**
    `format_number` as evidently intended: an int of the same value for a
    whole Decimal, otherwise text that reads back as the same value.
   */
  lemma FormatDecimalReadsBack(d: Decimal)
    ensures FormatDecimal(d).IntResult? ==> FormatDecimal(d).i as real == Value(d)
    ensures FormatDecimal(d).FloatResult? ==>
      Parse(FormatDecimal(d).text).Ok? && Value(Parse(FormatDecimal(d).text).value) == Value(d)
  {
    if !IsWhole(d) {
      var digits := NatToString(d.coefficient);
      var leftDigits := d.exponent + |digits|;
      if IsPlain(d) {
        if leftDigits <= 0 {
          SmallFloatText(d);
        } else {
          SplitFloatText(d);
        }
      } else if |digits| > 1 {
        ScientificFloatText(d);
      } else {
        PointlessFloatText(d);
      }
    }
  }

  /** On text without an exponent, the stripping as written is the intended one. */
  lemma AsWrittenPlainAgrees(d: Decimal)
    requires IsPlain(d) && IntegerMagnitude(d) < Pow10(Precision)
    ensures FormatDecimalAsWritten(d) == Ok(FormatDecimal(d))
  {
    if !IsWhole(d) {
      var digits := NatToString(d.coefficient);
      if d.exponent + |digits| <= 0 {
        SmallFloatText(d);
      } else {
        SplitFloatText(d);
      }
    }
  }

  /** So without an exponent the stripped text keeps the value, as the docstring promises. */
  lemma AsWrittenPlainReadsBack(d: Decimal)
    requires IsPlain(d) && IntegerMagnitude(d) < Pow10(Precision) && !IsWhole(d)
    ensures FormatDecimalAsWritten(d).Ok? && FormatDecimalAsWritten(d).value.FloatResult?
    ensures Parse(FormatDecimalAsWritten(d).value.text).Ok?
    ensures Value(Parse(FormatDecimalAsWritten(d).value.text).value) == Value(d)
  {
    AsWrittenPlainAgrees(d);
    FormatDecimalReadsBack(d);
  }

  /** The text ends in neither '0' nor '.'. */
  predicate EndsClean(t: string)
  {
    |t| >= 1 && t[|t| - 1] != '0' && t[|t| - 1] != '.'
  }

  /** Stripping a text whose tail keeps a non-zero digit ends the text in that digit. */
  lemma StripKeepsTail(head: string, tail: string, text: string)
    requires text == head + tail && AllDigits(tail) && RStrip(tail, '0') != []
    ensures EndsClean(StripZeros(text))
  {
    var r := RStrip(tail, '0');
    RStripAppend(head, tail, '0');
    var u := head + r;
    assert u[|u| - 1] == tail[|r| - 1];
    RStripTail(u, [], '.');
    AppendEmpty(u);
  }

  /** A text of no leading zero keeps its first digit. */
  lemma LeadingDigitKept(tail: string)
    requires |tail| >= 1 && tail[0] != '0'
    ensures RStrip(tail, '0') != []
  {
  }

  /** A fraction made only of zeros leaves the coefficient a multiple of its scale. */
  lemma ZeroFractionWhole(intPart: string, frac: string, c: nat)
    requires AllDigits(intPart) && AllDigits(frac) && AllDigits(intPart + frac)
    requires c == DigitsValue(intPart + frac)
    ensures RStrip(frac, '0') == [] ==> c % Pow10(|frac|) == 0
  {
    if RStrip(frac, '0') == [] {
      assert intPart + RStrip(frac, '0') == intPart;
      StrippedDigits(intPart, frac, intPart, |frac|);
      MultipleMod(DigitsValue(intPart), Pow10(|frac|), c);
    }
  }

  lemma MultipleMod(a: nat, p: nat, c: nat)
    requires p > 0 && c == a * p
    ensures c % p == 0
  {
    RealProduct(a, p);
    FloorFromProduct(a as real, p, c);
  }

  /** "0." then leading zeros and the digits: the digits end in the coefficient's last non-zero digit. */
  lemma SmallTextEnd(d: Decimal)
    requires IsPlain(d) && d.exponent + |NatToString(d.coefficient)| <= 0 && !IsWhole(d)
    ensures EndsClean(FloatTextAsWritten(ToSciString(d)))
  {
    var digits := NatToString(d.coefficient);
    var z := -(d.exponent + |digits|);
    NonWholeNonZero(d);
    SmallText(d, digits, z);
    SmallTextEndAt(d.negative, z, digits, ToSciString(d));
  }

  lemma NonWholeNonZero(d: Decimal)
    requires !IsWhole(d)
    ensures d.coefficient != 0 && d.exponent < 0
  {
    MultipleMod(0, Pow10(-d.exponent), 0);
  }

  lemma SmallText(d: Decimal, digits: string, z: nat)
    requires IsPlain(d) && digits == NatToString(d.coefficient) && z == -(d.exponent + |digits|)
    ensures ToSciString(d) == Render(d.negative, Mantissa("0", Some(Zeros(z) + digits)), None)
  {
  }

  lemma SmallTextEndAt(negative: bool, z: nat, digits: string, text: string)
    requires AllDigits(digits) && |digits| >= 1 && digits[0] != '0'
    requires text == Render(negative, Mantissa("0", Some(Zeros(z) + digits)), None)
    ensures EndsClean(FloatTextAsWritten(text))
  {
    var head := (if negative then "-" else "") + "0." + Zeros(z);
    PlainFractionShape(negative, "0", Zeros(z), digits, text, head);
    HasPoint(negative, "0", Zeros(z) + digits, None, text);
    LeadingDigitKept(digits);
    StripKeepsTail(head, digits, text);
    assert FloatTextAsWritten(text) == StripZeros(text);
  }

  /** The point inside the digits: a fraction of zeros only would make the value whole. */
  lemma SplitTextEnd(d: Decimal)
    requires IsPlain(d) && !IsWhole(d)
    requires 0 < d.exponent + |NatToString(d.coefficient)| < |NatToString(d.coefficient)|
    ensures EndsClean(FloatTextAsWritten(ToSciString(d)))
  {
    var digits := NatToString(d.coefficient);
    var l := d.exponent + |digits|;
    var intPart, frac := digits[..l], digits[l..];
    var text := ToSciString(d);
    assert text == Render(d.negative, Mantissa(intPart, Some(frac)), None);
    SplitFractionKept(d.coefficient, digits, l, intPart, frac);
    SplitTextEndAt(d.negative, intPart, frac, text);
  }

  lemma SplitTextEndAt(negative: bool, intPart: string, frac: string, text: string)
    requires AllDigits(frac) && RStrip(frac, '0') != []
    requires text == Render(negative, Mantissa(intPart, Some(frac)), None)
    ensures EndsClean(FloatTextAsWritten(text))
  {
    var head := (if negative then "-" else "") + intPart + ".";
    assert [] + frac == frac;
    PlainFractionShape(negative, intPart, [], frac, text, head);
    HasPoint(negative, intPart, frac, None, text);
    StripKeepsTail(head, frac, text);
    assert FloatTextAsWritten(text) == StripZeros(text);
  }

  /** Digits after the point that are all zeros would make the coefficient a multiple of their scale. */
  lemma SplitFractionKept(c: nat, digits: string, l: nat, intPart: string, frac: string)
    requires digits == NatToString(c) && l <= |digits| && intPart == digits[..l] && frac == digits[l..]
    requires c % Pow10(|frac|) != 0
    ensures AllDigits(frac) && RStrip(frac, '0') != []
  {
    assert intPart + frac == digits;
    NatToStringValue(c);
    ZeroFractionWhole(intPart, frac, c);
  }

  lemma PlainFractionShape(negative: bool, intPart: string, zeros: string, digits: string, text: string, head: string)
    requires text == Render(negative, Mantissa(intPart, Some(zeros + digits)), None)
    requires head == (if negative then "-" else "") + intPart + "." + zeros
    ensures text == head + digits
  {
  }

  /** With an exponent the value is below 10^-6, so the text ends in the digits of a negative exponent. */
  lemma ScientificTextEnd(d: Decimal)
    requires !IsPlain(d) && |NatToString(d.coefficient)| > 1 && !IsWhole(d)
    ensures EndsClean(FloatTextAsWritten(ToSciString(d)))
  {
    var digits := NatToString(d.coefficient);
    var x := d.exponent + |digits| - 1;
    assert x < 0;
    var text := ToSciString(d);
    assert text == Render(d.negative, Mantissa(digits[..1], Some(digits[1..])), Some(ExponentText(x)));
    ScientificTextEndAt(d.negative, digits[..1], digits[1..], -x, text);
  }

  lemma ScientificTextEndAt(negative: bool, intPart: string, frac: string, n: nat, text: string)
    requires n > 0 && text == Render(negative, Mantissa(intPart, Some(frac)), Some(ExponentText(-(n as int))))
    ensures EndsClean(FloatTextAsWritten(text))
  {
    var m := Mantissa(intPart, Some(frac));
    var head := (if negative then "-" else "") + m + "E-";
    var digits := NatToString(n);
    assert ExponentText(-(n as int)) == "-" + digits;
    assert text == head + digits;
    HasPoint(negative, intPart, frac, Some(ExponentText(-(n as int))), text);
    LeadingDigitKept(digits);
    StripKeepsTail(head, digits, text);
    assert FloatTextAsWritten(text) == StripZeros(text);
  }

  /**
    For a value that is not whole and whose text has a '.', the text
    handed to `float()` as written ends in neither '0' nor '.'.
   */
  lemma AsWrittenTextEnd(d: Decimal)
    requires !IsWhole(d) && '.' in ToSciString(d)
    ensures FormatDecimalAsWritten(d).Ok? ==> FormatDecimalAsWritten(d).value.FloatResult?
    ensures FormatDecimalAsWritten(d).Ok? ==> EndsClean(FormatDecimalAsWritten(d).value.text)
  {
    var digits := NatToString(d.coefficient);
    var leftDigits := d.exponent + |digits|;
    if IsPlain(d) {
      if leftDigits <= 0 {
        SmallTextEnd(d);
      } else {
        SplitTextEnd(d);
      }
    } else if |digits| > 1 {
      ScientificTextEnd(d);
    } else {
      PointlessFloatText(d);
    }
    if IntegerMagnitude(d) < Pow10(Precision) {
      NonWholeFormats(d, ToSciString(d));
    }
  }

  /** A value that is not whole and whose text has no '.' reaches `float()` as its text, unchanged. */
  lemma PointlessTextUnchanged(d: Decimal)
    requires !IsWhole(d) && '.' !in ToSciString(d) && IntegerMagnitude(d) < Pow10(Precision)
    ensures FormatDecimalAsWritten(d) == Ok(FloatResult(ToSciString(d)))
  {
    NonWholeFormats(d, ToSciString(d));
  }

  /**
    1.5E-10: the text `str` prints ends in the exponent's '0', which the
    stripping as written removes, turning the exponent -10 into -1.
   */
  lemma ExponentZeroStripped()
    ensures ToSciString(Decimal(false, 15, -11)) == "1.5E-10"
    ensures FormatDecimalAsWritten(Decimal(false, 15, -11)) == Ok(FloatResult("1.5E-1"))
    ensures Parse("1.5E-1") == Ok(Decimal(false, 15, -2))
    ensures Value(Decimal(false, 15, -2)) == 1000000000.0 * Value(Decimal(false, 15, -11)) != 0.0
    ensures FormatDecimal(Decimal(false, 15, -11)) == FloatResult("1.5E-10")
  {
    var d := Decimal(false, 15, -11);
    var text := ToSciString(d);
    SmallSciText();
    StripExponentZero();
    ParseStripped();
    SmallNotWhole(d);
    NonWholeFormats(d, text);
    ExponentZeroValue();
  }

  /** A value that is not whole and whose integer part fits formats through its text. */
  lemma NonWholeFormats(d: Decimal, text: string)
    requires !IsWhole(d) && IntegerMagnitude(d) < Pow10(Precision) && text == ToSciString(d)
    ensures FormatDecimalAsWritten(d) == Ok(FloatResult(FloatTextAsWritten(text)))
    ensures FormatDecimal(d) == FloatResult(FloatText(text))
  {
  }

  lemma SmallNotWhole(d: Decimal)
    requires d == Decimal(false, 15, -11)
    ensures !IsWhole(d) && IntegerMagnitude(d) < Pow10(Precision)
  {
    assert Pow10(11) == 100000000000;
    assert IntegerMagnitude(d) == 0;
  }

  lemma ExponentZeroValue()
    ensures Value(Decimal(false, 15, -2)) == 1000000000.0 * Value(Decimal(false, 15, -11)) != 0.0
  {
    ValueShift(false, 15, -2, 9, 15000000000, -11);
    ScaledConst(1000000000, 15, -11);
    ScaledFraction(15, 11);
  }

  lemma SmallSciText()
    ensures ToSciString(Decimal(false, 15, -11)) == "1.5E-10"
  {
    var digits := NatToString(15);
    assert digits == "15" by {
      assert NatToString(1) == "1";
    }
    var t := ExponentText(-10);
    assert t == "-10" by {
      assert NatToString(1) == "1";
      assert NatToString(10) == "10";
    }
    assert Mantissa("1", Some("5")) == "1.5";
    assert Render(false, "1.5", Some(t)) == "1.5E-10";
  }

  lemma StripExponentZero()
    ensures FloatTextAsWritten("1.5E-10") == "1.5E-1"
    ensures FloatText("1.5E-10") == "1.5E-10"
  {
    var text := "1.5E-10";
    assert text[1] == '.';
    assert text == "1.5E-1" + "0";
    RStripTail("1.5E-1", "0", '0');
    AppendEmpty("1.5E-1");
    RStripTail("1.5E-1", [], '.');
    assert text == "1.5" + ['E'] + "-10";
    FirstIndexAt("1.5", 'E', "-10", 'E', 'E');
    AroundSeparator("1.5", 'E', "-10");
    AppendEmpty("1.5");
    RStripTail("1.5", [], '0');
    RStripTail("1.5", [], '.');
  }


  lemma ParseStripped()
    ensures Parse("1.5E-1") == Ok(Decimal(false, 15, -2))
  {
    OnePointFive();
    assert ParseExponent("-1") == Some(-1) by {
      assert ExponentText(-1) == "-1";
      ExponentRoundTrip(-1);
    }
    assert Render(false, "1.5", Some("-1")) == "1.5E-1";
    ParseRenderExponent(false, "1.5", 15, -1, "-1", -1, -2, "1.5E-1");
  }

  lemma OnePointFive()
    ensures ParseMantissa("1.5") == Some(Numeral(15, -1)) && PlainMantissa("1.5")
  {
    assert DigitsValue("15") == 15;
    assert "1" + ['.'] + "5" == "1.5" && "1" + "5" == "15";
    FractionAt("1.5", "1", "5", 15, -1);
    MantissaShape("1", Some("5"));
    assert Mantissa("1", Some("5")) == "1.5";
  }

}
