/**
  The logic of the exchange app's models: which trading platform an
  exchange uses, and what a transaction derives from its price, quantity,
  type and market: total price and current value, profit or loss, change
  percentage, the thousands-separated admin texts and the platform id.
  Database fields become datatype fields; the coin's current price, the
  Jalali date's text and the float texts are inputs.
 */
module ExchangeModels {
  import opened Wrappers
  import opened Text
  import opened Numerals
  import opened Decimals

  /** The values of ExchangeNameChoices. */
  const WallexName: string := "wallex"
  const BitpinName: string := "bitpin"

  /** The values of TransactionTypeChoices. */
  const BuyType: string := "buy"
  const SellType: string := "sell"

  /** The values of MarketChoices. */
  const TomanMarket: string := "irt"
  const TetherMarket: string := "usdt"

  /** The trading platforms the app talks to. */
  datatype Platform = Wallex | Bitpin

  /** The exceptions the modelled members raise. */
  datatype ModelError =
    | InvalidExchangeName   // `Exception("Exchange name is not valid")`
    | TypeError             // `"|".join` meeting a missing market

  datatype Exchange = Exchange(name: string)

  /** A transaction row; `coinCode` is the related coin's `code`. */
  datatype Transaction = Transaction(
    kind: string,
    price: Decimal,
    quantity: Decimal,
    market: Option<string>,
    coinCode: string)

  /** The choice value that names a platform. */
  function PlatformName(p: Platform): string
  {
    match p
    case Wallex => WallexName
    case Bitpin => BitpinName
  }

  /** `Exchange.get_platform`: the platform named by the exchange, or an error for any other name. */
  function GetPlatform(e: Exchange): (r: Result<Platform, ModelError>)
    ensures r == Ok(Wallex) <==> e.name == WallexName
    ensures r == Ok(Bitpin) <==> e.name == BitpinName
    ensures r.Err? <==> e.name != WallexName && e.name != BitpinName
    ensures r.Err? ==> r.error == InvalidExchangeName
  {
    if e.name == WallexName then Ok(Wallex)
    else if e.name == BitpinName then Ok(Bitpin)
    else Err(InvalidExchangeName)
  }

  /** Every platform is reached from its own name, and from no other. */
  lemma GetPlatformOfName(p: Platform, e: Exchange)
    ensures GetPlatform(Exchange(PlatformName(p))) == Ok(p)
    ensures GetPlatform(e) == Ok(p) ==> e.name == PlatformName(p)
  {
  }

  predicate IsBuy(t: Transaction)
    ensures IsBuy(t) ==> t.kind != SellType
  {
    t.kind == BuyType
  }

  predicate IsSell(t: Transaction)
    ensures IsSell(t) ==> t.kind != BuyType
  {
    t.kind == SellType
  }

  predicate IsToman(t: Transaction)
    ensures IsToman(t) ==> t.market.Some? && t.market.value != TetherMarket
  {
    t.market == Some(TomanMarket)
  }

  predicate IsUsdt(t: Transaction)
    ensures IsUsdt(t) ==> t.market.Some? && t.market.value != TomanMarket
  {
    t.market == Some(TetherMarket)
  }

  /** A transaction is never both a buy and a sell; a type from the choices is exactly one of them. */
  lemma BuyOrSell(t: Transaction)
    ensures !(IsBuy(t) && IsSell(t))
    ensures t.kind == BuyType || t.kind == SellType ==> IsBuy(t) != IsSell(t)
    ensures t.kind != BuyType && t.kind != SellType ==> !IsBuy(t) && !IsSell(t)
  {
  }

  /** A transaction is never in both markets; a market from the choices is exactly one of them. */
  lemma TomanOrUsdt(t: Transaction)
    ensures !(IsToman(t) && IsUsdt(t))
    ensures t.market == Some(TomanMarket) || t.market == Some(TetherMarket) ==> IsToman(t) != IsUsdt(t)
    ensures t.market.None? ==> !IsToman(t) && !IsUsdt(t)
  {
  }

  /**
    The coefficients of `a` and `b` multiply to a number of at most 28
    digits once its trailing zeros are set aside, so the context rounds
    away only zeros.
   */
  predicate ExactRange(a: Decimal, b: Decimal)
  {
    ExactIn(a.coefficient * b.coefficient, Precision)
  }

  /** `n` is the exact product of `a` and `b` truncated toward zero, whenever that product needs no rounding. */
  predicate Truncates(a: Decimal, b: Decimal, n: int)
  {
    ExactRange(a, b) ==> n == TruncReal(Value(a) * Value(b))
  }

  /**
    `int(a * b)`: the product under the default context, truncated toward
    zero. It is the exact product truncated whenever the product of the
    coefficients has at most 28 digits besides its trailing zeros, and
    zero when a factor is zero.
   */
  function TruncatedProduct(a: Decimal, b: Decimal): (n: int)
    ensures Truncates(a, b, n)
    ensures a.coefficient == 0 || b.coefficient == 0 ==> n == 0
    ensures a.negative == b.negative ==> n >= 0
    ensures a.negative != b.negative ==> n <= 0
  {
    var r := Mul(a, b);
    ToIntTruncates(r);
    ToInt(r)
  }

  /** `total_price`: `int(price * quantity)`. */
  function TotalPrice(t: Transaction): (n: int)
    ensures Truncates(t.price, t.quantity, n)
    ensures t.price.coefficient == 0 || t.quantity.coefficient == 0 ==> n == 0
  {
    TruncatedProduct(t.price, t.quantity)
  }

  /**
    `current_price`: the coin's price on the transaction's market when the
    platform gives one that is not zero, otherwise 0.
   */
  function CurrentPrice(coinPrice: Option<Decimal>): (p: Decimal)
    ensures coinPrice.Some? && coinPrice.value.coefficient != 0 ==> p == coinPrice.value
    ensures coinPrice.None? || coinPrice.value.coefficient == 0 ==> Value(p) == 0.0
  {
    match coinPrice
    case Some(q) => if q.coefficient != 0 then q else Decimal(false, 0, 0)
    case None => Decimal(false, 0, 0)
  }

  /** `get_current_value`: `int(current_price * quantity)`. */
  function CurrentValue(t: Transaction, coinPrice: Option<Decimal>): (n: int)
    ensures Truncates(CurrentPrice(coinPrice), t.quantity, n)
    ensures coinPrice.None? || coinPrice.value.coefficient == 0 ==> n == 0
  {
    TruncatedProduct(CurrentPrice(coinPrice), t.quantity)
  }

  /**
    `get_profit_or_loss`: "-" exactly for a sell; otherwise current value
    minus total price, with thousands separators, which reads back as that
    difference and starts with '-' exactly for a loss.
   */
  function ProfitOrLoss(t: Transaction, coinPrice: Option<Decimal>): (s: string)
    ensures s == "-" <==> IsSell(t)
    ensures !IsSell(t) ==> RemoveCommas(s) == IntToString(CurrentValue(t, coinPrice) - TotalPrice(t))
    ensures !IsSell(t) ==> (s[0] == '-' <==> CurrentValue(t, coinPrice) < TotalPrice(t))
  {
    if IsSell(t) then "-"
    else
      var difference := CurrentValue(t, coinPrice) - TotalPrice(t);
      FormatThousandsDigits(difference);
      FormatThousandsNotDash(difference);
      FormatThousands(difference)
  }

  /** Grouped digits are never the lone "-" a sell shows. */
  lemma FormatThousandsNotDash(n: int)
    ensures FormatThousands(n) != "-"
  {
    FormatThousandsDigits(n);
    if n < 0 {
      RemoveCommasWithout("-");
      assert |IntToString(n)| >= 2;
    } else {
      assert IntToString(n)[0] != '-';
    }
  }

  /** `get_total_price`: the total price with thousands separators. */
  function GetTotalPrice(t: Transaction): (s: string)
    ensures RemoveCommas(s) == IntToString(TotalPrice(t))
    ensures |s| >= 1 && (s[0] == '-' <==> TotalPrice(t) < 0)
    ensures GroupedDigits(if s[0] == '-' then s[1..] else s)
  {
    var n := TotalPrice(t);
    FormatThousandsDigits(n);
    FormatThousandsShape(n);
    FormatThousands(n)
  }

  /** `get_current_value_admin`: the current value with thousands separators. */
  function GetCurrentValueAdmin(t: Transaction, coinPrice: Option<Decimal>): (s: string)
    ensures RemoveCommas(s) == IntToString(CurrentValue(t, coinPrice))
    ensures |s| >= 1 && (s[0] == '-' <==> CurrentValue(t, coinPrice) < 0)
    ensures GroupedDigits(if s[0] == '-' then s[1..] else s)
  {
    var n := CurrentValue(t, coinPrice);
    FormatThousandsDigits(n);
    FormatThousandsShape(n);
    FormatThousands(n)
  }

  /**
    What `get_change_percentage` returns: "-", the int 0, or a float, here
    the exact percentage before `round(..., 2)`.
   */
  datatype Change = Dash | ZeroChange | Percent(exact: real)

  /** `p` is `gain` over `total` in percent. */
  predicate PercentOf(p: real, gain: int, total: int)
  {
    total != 0 && p * (total as real) == 100.0 * (gain as real)
  }

  /**
    `get_change_percentage`: "-" for a sell, 0 for a zero total price (so
    it never divides by zero), otherwise the gain over the total price in
    percent.
   */
  function ChangePercentage(t: Transaction, coinPrice: Option<Decimal>): (c: Change)
    ensures c == Dash <==> IsSell(t)
    ensures c == ZeroChange <==> !IsSell(t) && TotalPrice(t) == 0
    ensures c.Percent? ==> PercentOf(c.exact, CurrentValue(t, coinPrice) - TotalPrice(t), TotalPrice(t))
  {
    var total := TotalPrice(t);
    if IsSell(t) then Dash
    else if total == 0 then ZeroChange
    else
      var gain := CurrentValue(t, coinPrice) - total;
      var p := (gain as real / total as real) * 100.0;
      PercentTimesTotal(gain, total, p);
      Percent(p)
  }

  lemma PercentTimesTotal(gain: int, total: int, p: real)
    requires total != 0 && p == (gain as real / total as real) * 100.0
    ensures PercentOf(p, gain, total)
  {
    assert (gain as real / total as real) * (total as real) == gain as real;
  }

  /**
    For a positive total price the percentage has the sign of the profit or
    loss; for a negative one (a negative price or quantity) the opposite sign.
   */
  lemma ChangeSign(t: Transaction, coinPrice: Option<Decimal>)
    requires !IsSell(t) && TotalPrice(t) != 0
    ensures var c := ChangePercentage(t, coinPrice);
      var gain := CurrentValue(t, coinPrice) - TotalPrice(t);
      c.Percent? &&
      (TotalPrice(t) > 0 ==> (c.exact > 0.0 <==> gain > 0) && (c.exact < 0.0 <==> gain < 0)) &&
      (TotalPrice(t) < 0 ==> (c.exact > 0.0 <==> gain < 0) && (c.exact < 0.0 <==> gain > 0))
  {
    var c := ChangePercentage(t, coinPrice);
    var total := TotalPrice(t);
    var gain := CurrentValue(t, coinPrice) - total;
    PercentSign(c.exact, gain, total);
  }

  lemma PercentSign(p: real, gain: int, total: int)
    requires PercentOf(p, gain, total)
    ensures total > 0 ==> (p > 0.0 <==> gain > 0) && (p < 0.0 <==> gain < 0)
    ensures total < 0 ==> (p > 0.0 <==> gain < 0) && (p < 0.0 <==> gain > 0)
  {
    var x, g := total as real, 100.0 * (gain as real);
    assert p * x == g;
    if p > 0.0 && x > 0.0 {
      assert p * x > 0.0;
    }
  }

  /** The six parts `construct_platform_id` joins, given a market. */
  function PlatformIdComponents(t: Transaction, jdateText: string, quantityText: string, priceText: string): (parts: seq<string>)
    requires t.market.Some?
    ensures |parts| == 6
  {
    [jdateText, t.coinCode, t.market.value, t.kind, quantityText, priceText]
  }

  /**
    `construct_platform_id`: the six parts joined by '|' and lowered. A
    missing market makes the join raise TypeError. `jdateText`,
    `quantityText` and `priceText` stand for `str(jdate)`,
    `str(float(quantity))` and `str(float(price))`.
   */
  function ConstructPlatformId(t: Transaction, jdateText: string, quantityText: string, priceText: string)
    : (r: Result<string, ModelError>)
    ensures r.Err? <==> t.market.None?
    ensures r.Err? ==> r.error == TypeError
    ensures r.Ok? ==> forall i :: 0 <= i < |r.value| ==> !IsUpper(r.value[i])
    ensures r.Ok? ==> |r.value| == |Join(PlatformIdComponents(t, jdateText, quantityText, priceText), '|')|
  {
    if t.market.None? then Err(TypeError)
    else Ok(Lower(Join(PlatformIdComponents(t, jdateText, quantityText, priceText), '|')))
  }

  /** Lowering the id again changes nothing. */
  lemma PlatformIdLowered(t: Transaction, jdateText: string, quantityText: string, priceText: string)
    ensures var r := ConstructPlatformId(t, jdateText, quantityText, priceText);
      r.Ok? ==> Lower(r.value) == r.value
  {
    if t.market.Some? {
      LowerIdempotent(Join(PlatformIdComponents(t, jdateText, quantityText, priceText), '|'));
    }
  }

  /**
    When no part holds '|', splitting the id at '|' gives back the six
    parts, lowered, in order: date, coin code, market, type, quantity, price.
   */
  lemma PlatformIdSplits(t: Transaction, jdateText: string, quantityText: string, priceText: string)
    requires t.market.Some?
    requires '|' !in jdateText && '|' !in t.coinCode && '|' !in t.market.value
    requires '|' !in t.kind && '|' !in quantityText && '|' !in priceText
    ensures var r := ConstructPlatformId(t, jdateText, quantityText, priceText);
      r.Ok? && Split(r.value, '|') ==
        [Lower(jdateText), Lower(t.coinCode), Lower(t.market.value), Lower(t.kind), Lower(quantityText), Lower(priceText)]
  {
    var parts := PlatformIdComponents(t, jdateText, quantityText, priceText);
    var lowered := LowerEach(parts);
    LowerJoin(parts, '|');
    forall i | 0 <= i < |lowered|
      ensures '|' !in lowered[i]
    {
      LowerWithout(parts[i], '|');
    }
    SplitJoin(lowered, '|');
  }

  /**
    A price and a quantity that fit the fields (20 digits, 10 after the
    point) whose product needs 30 digits: the default context rounds it up
    to 10^10, so `int()` gives 10000000000 where the exact product
    truncates to 9999999999.
   */
  lemma TotalPriceRounded(t: Transaction)
    requires t.price == Decimal(false, 999999999999999, -10)
    requires t.quantity == Decimal(false, 1000000000000001, -10)
    ensures TotalPrice(t) == 10000000000
    ensures TruncReal(Value(t.price) * Value(t.quantity)) == 9999999999
  {
    ProductRounded(t.price, t.quantity);
  }

  lemma ProductRounded(a: Decimal, b: Decimal)
    requires a == Decimal(false, 999999999999999, -10)
    requires b == Decimal(false, 1000000000000001, -10)
    ensures TruncatedProduct(a, b) == 10000000000
    ensures TruncReal(Value(a) * Value(b)) == 9999999999
  {
    var exact := ExactProduct(a, b);
    assert exact == Decimal(false, 999999999999999 * 1000000000000001, -20);
    ProductNeedsThirtyDigits(exact);
    RoundsUpToPower(exact);
    ToIntTruncates(exact);
    ExactTruncation(exact);
  }

  lemma ProductNeedsThirtyDigits(d: Decimal)
    requires d == Decimal(false, 999999999999999 * 1000000000000001, -20)
    ensures d.coefficient == 999999999999999999999999999999
    ensures |NatToString(d.coefficient)| == 30
  {
    LargePowers();
    NatToStringLength(d.coefficient, 30);
  }

  lemma RoundsUpToPower(d: Decimal)
    requires d == Decimal(false, 999999999999999999999999999999, -20)
    requires |NatToString(d.coefficient)| == 30
    ensures Round(d) == Decimal(false, 1000000000000000000000000000, -17)
    ensures ToInt(Round(d)) == 10000000000
  {
    MiddlePowers();
    LargePowers();
    assert Pow10(2) == 100;
    assert RoundDiv(d.coefficient, 100) == 10000000000000000000000000000;
  }

  lemma ExactTruncation(d: Decimal)
    requires d == Decimal(false, 999999999999999999999999999999, -20)
    ensures ToInt(d) == 9999999999
  {
    MiddlePowers();
  }

  /** Powers of ten larger than the verifier works out from a literal exponent on its own. */
  lemma MiddlePowers()
    ensures Pow10(17) == 100000000000000000
    ensures Pow10(20) == 100000000000000000000
  {
    Pow10Add(10, 7);
    Pow10Add(10, 10);
  }

  lemma LargePowers()
    ensures Pow10(27) == 1000000000000000000000000000
    ensures Pow10(28) == 10000000000000000000000000000
    ensures Pow10(29) == 100000000000000000000000000000
    ensures Pow10(30) == 1000000000000000000000000000000
  {
    MiddlePowers();
    Pow10Add(17, 10);
    Pow10Add(27, 1);
    Pow10Add(27, 2);
    Pow10Add(27, 3);
  }

  /**
    A stored total of 6,000,000,000: 6000000000.0000000000 × 1.0000000000
    has a 30-digit coefficient product, but rounding it drops only zeros,
    so `total_price` is exact.
   */
  lemma StoredTotalExact(t: Transaction)
    requires t.price == Decimal(false, 60000000000000000000, -10)
    requires t.quantity == Decimal(false, 10000000000, -10)
    ensures t.price.coefficient * t.quantity.coefficient >= Pow10(Precision)
    ensures ExactRange(t.price, t.quantity)
    ensures TotalPrice(t) == 6000000000
  {
    ProductDropsZeros(t.price, t.quantity);
  }

  lemma ProductDropsZeros(a: Decimal, b: Decimal)
    requires a == Decimal(false, 60000000000000000000, -10)
    requires b == Decimal(false, 10000000000, -10)
    ensures a.coefficient * b.coefficient >= Pow10(Precision)
    ensures ExactRange(a, b)
    ensures TruncatedProduct(a, b) == 6000000000
  {
    var c := a.coefficient * b.coefficient;
    assert c == 600000000000000000000000000000;
    LargePowers();
    NatToStringLength(c, 30);
    assert DroppedDigits(c, Precision) == 2;
    ValueShift(false, 6000000000, 0, 10, a.coefficient, -10);
    ValueShift(false, 1, 0, 10, b.coefficient, -10);
  }
}
