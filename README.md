# Crypto assets monitoring: transaction figures and `format_number`

This project models two pieces of logic of a Django application that
tracks crypto-currency transactions on the Wallex and Bitpin platforms:

- the derived figures of a `Transaction` and the platform lookup of an
  `Exchange` (`crypto_assets/exchange/models.py`): total price, current
  price and current value, profit or loss, change percentage, the
  thousands-separated admin texts, the platform id, and the buy/sell and
  toman/tether predicates;
- `format_number` (`crypto_assets/exchange/utils.py`), which turns a
  number into an int when it is whole and otherwise into the text handed
  to `float()` with trailing zeros and a dangling '.' removed.

All of it is pure: datatypes, functions and lemmas, in six modules.

- `Wrappers`: `Option` and `Result`.
- `Text`: `str.lower` on ASCII, `join`, `split`, `rstrip`.
- `Numerals`: digit strings, `str(int)` and the `","` format option
  (PEP 378).
- `Decimals`: Python's `decimal.Decimal` as a sign, a coefficient and an
  exponent:
  - multiplication under the default context (28 digits, round half even);
  - `int()` truncating toward zero;
  - `% 1` with its quotient limit;
  - `str()` (to-scientific-string, proved to read back by `Decimal()`);
  - the `Decimal(str)` parser for finite numerals.
- `ExchangeModels` and `ExchangeUtils`: the two source files.

`price * quantity` is evaluated in the default decimal context, which
keeps 28 significant digits. Both fields are stored with 10 digits after
the point and up to 20 digits in all, so the coefficients' product can
have up to 40 digits. Rounding to 28 digits loses nothing when every
dropped digit is a zero, that is when the product has at most 28 digits
once its trailing zeros are set aside. Then `total_price` is the exact
product truncated: 6000000000.0000000000 × 1.0000000000 gives
6000000000 (`StoredTotalExact`). Otherwise the product is rounded half
to even before `int()` truncates it. For example, 99999.9999999999 ×
100000.0000000001 gives 10000000000, where the exact product truncates
to 9999999999 (`TotalPriceRounded`). The model follows the code.

## Model

| member | source | states |
|---|---|---|
| ExchangeModels.GetPlatform | crypto_assets/exchange/models.py:33-38 | Wallex exactly for the name "wallex", Bitpin exactly for "bitpin", the invalid-name error exactly for every other name |
| ExchangeModels.GetPlatformOfName | crypto_assets/exchange/models.py:33-38 | every platform is reached from its own choice value and only from it |
| ExchangeModels.BuyOrSell | crypto_assets/exchange/models.py:160-168 | a transaction is never both buy and sell; with a type from the choices exactly one holds; with any other type neither does |
| ExchangeModels.TomanOrUsdt | crypto_assets/exchange/models.py:170-178 | never both markets; with a market from the choices exactly one holds; with no market neither does |
| ExchangeModels.IsBuy | crypto_assets/exchange/models.py:160-163 | `type == "buy"`; a buy never has the sell type (BuyOrSell gives all three cases) |
| ExchangeModels.IsSell | crypto_assets/exchange/models.py:165-168 | `type == "sell"`; a sell never has the buy type (BuyOrSell) |
| ExchangeModels.IsToman | crypto_assets/exchange/models.py:170-173 | `market == "irt"`: a market is present and it is not the tether market (TomanOrUsdt) |
| ExchangeModels.IsUsdt | crypto_assets/exchange/models.py:175-178 | `market == "usdt"`: a market is present and it is not the toman market (TomanOrUsdt) |
| ExchangeModels.TruncatedProduct | crypto_assets/exchange/models.py:105-111 | `int(a * b)` is the exact product truncated toward zero whenever rounding to 28 digits drops only zeros from the coefficient product; it is 0 when a factor is 0; it is non-negative for equal signs and non-positive otherwise |
| ExchangeModels.TotalPrice | crypto_assets/exchange/models.py:105-107 | the exact `price * quantity` truncated toward zero whenever rounding drops only zeros; 0 when price or quantity is 0 |
| ExchangeModels.TotalPriceRounded | crypto_assets/exchange/models.py:105-107 | for 99999.9999999999 × 100000.0000000001 the total price is 10000000000 while the exact product truncates to 9999999999 |
| ExchangeModels.StoredTotalExact | crypto_assets/exchange/models.py:105-107 | for 6000000000.0000000000 × 1.0000000000 the coefficient product has 30 digits, yet rounding drops only zeros and the total price is exactly 6000000000 |
| ExchangeModels.CurrentPrice | crypto_assets/exchange/models.py:113-115 | the platform's price when there is one and it is non-zero, otherwise a zero value |
| ExchangeModels.CurrentValue | crypto_assets/exchange/models.py:109-111 | current price × quantity truncated toward zero whenever rounding drops only zeros; 0 when there is no price or it is zero |
| ExchangeModels.ProfitOrLoss | crypto_assets/exchange/models.py:133-137 | "-" exactly for a sell; otherwise the text reads back, without its commas, as current value minus total price, and starts with '-' exactly when current value < total price |
| ExchangeModels.GetTotalPrice | crypto_assets/exchange/models.py:139-141 | without its commas the text is `str(total_price)`; it starts with '-' exactly for a negative total; the digits form a first group of 1 to 3 digits followed by groups of exactly 3 |
| ExchangeModels.GetCurrentValueAdmin | crypto_assets/exchange/models.py:143-145 | the same three facts for the current value |
| Numerals.FormatThousands | crypto_assets/exchange/models.py:141 | `f"{n:,}"`: a '-' for a negative n, then the digits of \|n\| grouped by three; the text is never empty and starts with '-' exactly when n < 0; FormatThousandsDigits and FormatThousandsShape state the rest |
| Numerals.FormatThousandsDigits | crypto_assets/exchange/models.py:141 | removing the commas from `f"{n:,}"` gives `str(n)`, and the text starts with '-' exactly when n < 0 |
| Numerals.FormatThousandsShape | crypto_assets/exchange/models.py:141 | after the sign, the first comma-separated group has 1 to 3 digits and every later group has exactly 3 |
| ExchangeModels.ChangePercentage | crypto_assets/exchange/models.py:180-189 | "-" exactly for a sell; 0 exactly for a non-sell whose total price is 0, so the division never has a zero divisor; otherwise p with p × total = 100 × (current value − total) |
| ExchangeModels.ChangeSign | crypto_assets/exchange/models.py:180-189 | for a positive total the percentage is positive or negative exactly as the profit or loss is; for a negative total the signs are opposite |
| ExchangeModels.ConstructPlatformId | crypto_assets/exchange/models.py:147-158 | an error (TypeError) exactly when the market is missing; otherwise a text as long as the six parts joined by bars, with no upper-case letter |
| ExchangeModels.PlatformIdLowered | crypto_assets/exchange/models.py:158 | lowering the id again leaves it unchanged |
| ExchangeModels.PlatformIdSplits | crypto_assets/exchange/models.py:147-158 | when no part holds a bar, splitting the id at the bar gives the six parts lowered, in order: date, coin code, market, type, quantity, price |
| Text.SplitJoin | crypto_assets/exchange/models.py:158 | joining with a separator no part holds, then splitting at it, gives the parts back |
| Text.LowerJoin | crypto_assets/exchange/models.py:158 | lowering a join is joining the lowered parts when the separator is not a letter |
| Decimals.Mul | crypto_assets/exchange/models.py:107 | the product keeps at most 28 digits, has the sign rule of multiplication, and is zero exactly when a factor is; it equals the exact product when rounding drops only zeros, and otherwise lies within half a unit of its last kept digit |
| Decimals.RoundTo | crypto_assets/exchange/models.py:107 | the rounded coefficient fits the precision and keeps the sign and zero-ness; a coefficient that fits is kept; past the precision the exponent rises by exactly the k digits dropped, or by k + 1 when the rounding carries and the coefficient becomes 10^27; brought back to the old exponent, the coefficient is within half of 10^k of the old one (k digits dropped); the value is unchanged when only zeros are dropped |
| Decimals.ToInt | crypto_assets/exchange/models.py:107 | `int(d)`: its magnitude is the integer part of d, and a non-zero result has d's sign; ToIntTruncates proves it is the value truncated toward zero |
| Decimals.ToIntTruncates | crypto_assets/exchange/models.py:107 | `int(d)` is the value truncated toward zero |
| Decimals.RemainderByOne | crypto_assets/exchange/utils.py:14 | `d % 1` signals DivisionImpossible exactly when the integer part needs more than 28 digits; otherwise the remainder has the sign of d and is zero exactly when d equals its truncation |
| Decimals.WholeIffIntegral | crypto_assets/exchange/utils.py:14 | a Decimal has no non-zero fractional digit exactly when it equals its truncation, for either sign |
| Decimals.ToSciString | crypto_assets/exchange/utils.py:17 | `str(d)` (to-scientific-string): plain digits when the exponent is not positive and the adjusted exponent is at least -6 (with a '.' when the exponent is negative), otherwise one digit, the fraction and "E" with the signed adjusted exponent; the text is never empty and starts with '-' exactly for a negative d; SciStringRoundTrip proves `Decimal` reads it back |
| Decimals.Parse | crypto_assets/exchange/utils.py:11 | `Decimal(text)` for finite numerals: an optional sign, digits with at most one '.', an optional exponent; any failure is ConversionSyntax, the empty text fails, and the result is negative exactly when the text starts with '-'; SciStringRoundTrip is its partner |
| Decimals.SciStringRoundTrip | crypto_assets/exchange/utils.py:11 | `Decimal(str(d))` is d |
| ExchangeUtils.Canonical | crypto_assets/exchange/utils.py:10-11 | a Decimal argument is used as it is; an int, bool, float or str goes through `Decimal(str(value))`, whose only failure is ConversionSyntax; IntCanonical, BoolRejected and StrOfDecimal give the int, bool and str cases |
| ExchangeUtils.IntCanonical | crypto_assets/exchange/utils.py:10-11 | `Decimal(str(i))` is the integer i with exponent 0 (in Python only below CPython's 4300-digit `str()` limit, see "Left out") |
| ExchangeUtils.StrOfDecimal | crypto_assets/exchange/utils.py:10-11 | a Decimal's own text is converted back to that Decimal, so a str input and a Decimal input format alike |
| ExchangeUtils.BoolRejected | crypto_assets/exchange/utils.py:10-11 | `True` and `False` become "True" and "False", which `Decimal` rejects with ConversionSyntax |
| ExchangeUtils.FormatNumberAsWritten | crypto_assets/exchange/utils.py:4-18 | `format_number` as written: `Canonical` then `FormatDecimalAsWritten`; ConversionSyntax when the conversion fails; otherwise an error exactly when the integer part needs more than 28 digits, an int exactly for a whole value, equal to it; see IntReturnsItself, LargeIntRejected, BoolRejected, StrOfDecimal |
| ExchangeUtils.StripZeros | crypto_assets/exchange/utils.py:17 | `rstrip("0").rstrip(".")`: a prefix of the text, every removed character a '0' or a '.', and no '.' left at the end |
| ExchangeUtils.FloatTextAsWritten | crypto_assets/exchange/utils.py:16-18 | the text handed to `float()`: unchanged without a '.', otherwise stripped, so a prefix that lost only '0' and '.' characters and ends in no '.'; AsWrittenTextEnd and ExponentZeroStripped state what that does to a value |
| ExchangeUtils.FormatDecimalAsWritten | crypto_assets/exchange/utils.py:13-18 | an error exactly when the integer part has more than 28 digits; an int exactly when the value is whole, for either sign; that int equals the value |
| ExchangeUtils.IntReturnsItself | crypto_assets/exchange/utils.py:13-15 | an int of fewer than 29 digits comes back as itself |
| ExchangeUtils.LargeIntRejected | crypto_assets/exchange/utils.py:14 | an int of 10^28 or more in magnitude makes `value % 1` signal DivisionImpossible (in Python for ints below 10^4300; larger ones fail earlier in `str()`) |
| ExchangeUtils.AsWrittenTextEnd | crypto_assets/exchange/utils.py:16-18 | for a value that is not whole, whose integer part has at most 28 digits and whose text has a '.', the result is a float whose text ends in neither '0' nor '.' |
| ExchangeUtils.PointlessTextUnchanged | crypto_assets/exchange/utils.py:17 | a value that is not whole and whose text has no '.' reaches `float()` as its text unchanged |
| ExchangeUtils.AsWrittenPlainAgrees | crypto_assets/exchange/utils.py:16-18 | for a value printed without an exponent, the code's stripping is the mantissa-only stripping |
| ExchangeUtils.AsWrittenPlainReadsBack | crypto_assets/exchange/utils.py:5-18 | for such a value the stripped text denotes the same number, as the docstring promises |
| ExchangeUtils.ExponentZeroStripped | crypto_assets/exchange/utils.py:16-18 | 1.5E-10 is printed "1.5E-10", and the stripping turns it into "1.5E-1", which denotes 10^9 times the input; the corrected version keeps "1.5E-10" |
| ExchangeUtils.FormatNumber | crypto_assets/exchange/utils.py:4-18 | corrected `format_number`: `Canonical` then `FormatDecimal`; it fails exactly when the conversion fails, with ConversionSyntax; otherwise an int exactly for a whole value, equal to it; see IntReturnsItselfCorrected and FormatDecimalReadsBack |
| ExchangeUtils.FormatDecimal | crypto_assets/exchange/utils.py:4-18 | corrected `format_number`: an int exactly when the value is whole, and that int equals the value |
| ExchangeUtils.FormatDecimalReadsBack | crypto_assets/exchange/utils.py:4-18 | corrected `format_number`: an int equal to the value, or text that `Decimal` reads back as the same value |
| ExchangeUtils.IntReturnsItselfCorrected | crypto_assets/exchange/utils.py:13-15 | with the exact whole-number test, every int comes back as itself (every int that `str()` accepts, in Python) |

## Left out

- `float()`, `str(float)` and float arithmetic are left abstract:
  - a float result of `format_number` carries the text it is made from;
  - a float argument carries the text `str(f)` prints.
- ChangePercentage: the percentage is the exact real quotient. The float division and `round(..., 2)` are left out: binary floating point.
- ChangeSign: the sign matches the profit or loss only for a positive total price. With a negative price or quantity the code divides by a negative total and the sign flips. The lemma states both cases.
- TotalPrice: the exact truncated product is stated only when rounding to 28 digits drops only zeros. Otherwise the code truncates a product rounded to within half a unit of its 28th digit (the bound `Decimals.Mul` states). That truncation can differ from the exact one (`TotalPriceRounded`). The model does not state by how much.
- CurrentValue: the same condition as for TotalPrice applies.
- The field limits (20 digits, 10 after the point) are not imposed: any Decimal is a valid price or quantity.
- `Exchange.price`, `Exchange.cache_all_prices`, `Coin.price`: they call the Wallex and Bitpin clients and run an ORM query. The platform's answer is an input, `Option<Decimal>`.
  - The model assumes the platform returns a Decimal or nothing.
  - A float answer would make the product raise TypeError. That path is not modelled.
- The `or 0` fallback yields the int 0. It is modelled as a zero Decimal, which gives the same product.
- `get_price`, `get_current_price`, `get_quantity` and `Coin.get_price`: left out. They round and convert to float.
- `str(self.jdate)`, `str(float(self.quantity))` and `str(float(self.price))` in `construct_platform_id` are string inputs (Jalali date rendering and float printing).
- `str.lower` is modelled on ASCII letters only. Other Unicode case mappings are left out.
- `Importer` (a task-queue hook and a `print`), `__str__` methods, field and foreign-key definitions, and `cached_property` memoisation: left out. They hold no logic to state.
- `format_number` accepts only int, bool, float, str and Decimal in the model. `None` and other types are left out.
- The `Decimal()` parser covers finite numerals only: sign, digits, '.', exponent. Surrounding whitespace, underscores, Infinity/NaN and non-ASCII digits are left out. The model therefore signals ConversionSyntax for some inputs where Python does something else:
  - `format_number(float('nan'))` returns nan in Python. In the model, `FormatNumberAsWritten(FloatNumber("nan"))` is `Err(ConversionSyntax)`.
  - `format_number(" 1.5")` and `format_number("1_000")` succeed in Python but are rejected in the model.
  - `format_number(float('inf'))` raises InvalidOperation in Python, from `Infinity % 1`. The model signals ConversionSyntax for it instead: an error either way, but a different one.
- Decimal arguments are finite too: `Decimal` holds a sign, a coefficient and an exponent. `format_number(Decimal("NaN"))` returns nan and `format_number(Decimal("Infinity"))` raises InvalidOperation in Python; neither value exists in the model.
- `str(int)` raises ValueError past 4300 digits under CPython's default limit (`sys.int_info.default_max_str_digits`, Python 3.11 and later and the 2022 security releases before it). The model passes every int to `Decimal()`. So IntCanonical, LargeIntRejected and IntReturnsItselfCorrected describe Python only below 10^4300; above it `format_number` raises ValueError at `str(value)`.
- Decimal context flags and traps other than the two signals modelled (ConversionSyntax, DivisionImpossible) are left out.
- FloatText: the corrected stripping leaves an exponent as printed, so a corrected text can still end in '0' when the exponent does (for example "1.5E-10").

## Findings

| source | as written | input that shows it | evidently intended | confidence | as-written member | corrected member |
|---|---|---|---|---|---|---|
| crypto_assets/exchange/utils.py:16-18 | `rstrip("0")` runs over the whole of `str(value)`, including an exponent "E-10" | `Decimal("1.5E-10")`: "1.5E-10" becomes "1.5E-1", a value 10^9 times larger | strip trailing zeros of the mantissa only, keeping the number's value | not executed | ExchangeUtils.ExponentZeroStripped | ExchangeUtils.FormatDecimalReadsBack |
| crypto_assets/exchange/utils.py:13-15 | `value % 1` in the default context signals InvalidOperation (DivisionImpossible) when the integer part has more than 28 digits | `format_number(10**28)` raises instead of returning 10**28 | a whole number of any size comes back as an int (for ints, any size `str()` accepts) | not executed | ExchangeUtils.LargeIntRejected | ExchangeUtils.IntReturnsItselfCorrected |
