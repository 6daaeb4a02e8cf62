# Currency converter model

A Dafny model of the currency converter in the engine's API
(`engine/src/api/currency.py`). The model covers four parts of the converter:

- The closed set of eight currencies (`Currency`, lines 31-39), each
  identified by its three-letter code.
- The constant table of mock exchange rates (`ExchangeRates`, lines 43-52),
  expressed in units per US dollar.
- The request and response bodies (`ConvertRequest`, `ConvertResponse`,
  lines 11-25) as datatypes with the same fields. The `ge=0` constraint on
  the amount (line 14) is the predicate `ValidRequest`.
- `convert_currency`. It refuses a negative amount. It returns the amount
  unchanged, without rounding, when the two currencies are equal. Otherwise it
  converts through USD: it divides by the source rate, multiplies by the
  target rate and rounds to two decimals.
- The conversion logic of the `/convert` endpoint:
  - it upper-cases both codes and looks them up in the enum, and an unknown
    code gives a 400 error "Invalid currency code";
  - it converts the amount, and a `ValueError` from the converter becomes a
    400 error carrying its message;
  - it answers with the canonical codes and the displayed exchange rate,
    which is the target rate over the source rate rounded to four decimals.

Files:

- `wrappers.dfy` holds `Option` and `Result`, which stand in for raised
  exceptions.
- `bounds.dfy` holds facts about absolute errors of real numbers.
- `rounding.dfy` holds Python's `round(x, ndigits)` as `RoundTo(x, scale)`
  with scale = 10^ndigits, round-half-to-even on exact reals, and its two
  uses `round(x, 2)` and `round(x, 4)`.
- `currencies.dfy` holds the enum, the rate table and code parsing.
- `converter.dfy` holds `convert_currency`, the displayed rate and the
  endpoint.

Floating-point numbers are modelled as exact reals. So the rounding functions
round the exact mathematical value: to the nearest multiple of 0.01 (or
0.0001), with a tie going to the even neighbour, as Python's `round` does.

The round trip `a -> b -> a` is not within one cent per hop.
`RoundTripCanDriftBeyondACent` shows 1 JPY becoming 0.01 USD, which comes back
as 1.1 JPY. `RoundTripBound` proves the bound that does hold:
0.005 + 0.005 * Rate(a) / Rate(b).

## Model

| member | source | states |
|---|---|---|
| Currencies.Code | engine/src/api/currency.py:31-39 | each member's value is a three-letter upper-case code |
| Currencies.FromValue | engine/src/api/currency.py:31-39 | `Currency(v)` yields a member whose value is exactly v, and fails exactly when no member has value v |
| Currencies.CodeInjective | engine/src/api/currency.py:31-39 | two members with the same value are the same member |
| Currencies.FromValueCode | engine/src/api/currency.py:31-39 | looking up a member's own value gives back that member |
| Currencies.Rate | engine/src/api/currency.py:43-52 | the rate lookup by a member's value never misses and is strictly positive, so no division by it fails |
| Currencies.RateOfEachMember | engine/src/api/currency.py:43-52 | each member's rate is the table's entry for it: USD 1.0, EUR 0.85, GBP 0.73, JPY 110.0, CAD 1.25, AUD 1.35, CHF 0.92, CNY 6.45 |
| Currencies.RateTableCoversEnum | engine/src/api/currency.py:31-52 | every member's value is a key of the rate table |
| Currencies.RateTableOnlyEnum | engine/src/api/currency.py:31-52 | every key of the rate table is the value of a member |
| Currencies.RatesPositiveWithUsdPivot | engine/src/api/currency.py:43-52 | every rate in the table is positive; USD maps to 1.0 and is the only member with rate 1.0 |
| Currencies.UpperChar | engine/src/api/currency.py:81-82 | a lower-case ASCII letter becomes its upper-case letter; U+017F becomes 'S' and U+0131 becomes 'I'; every other character is unchanged; so an upper-case ASCII result comes only from itself, its lower-case letter, or U+017F / U+0131 |
| Currencies.Upper | engine/src/api/currency.py:81-82 | the model of `s.upper()` keeps the length and upper-cases every character in place with `UpperChar` |
| Currencies.Parse | engine/src/api/currency.py:80-82 | a code is accepted iff its upper-cased form is a member's value, and it then yields that member |
| Currencies.UpperIdempotent | engine/src/api/currency.py:81-82 | upper-casing twice is the same as upper-casing once |
| Currencies.ParseIgnoresCase | engine/src/api/currency.py:80-82 | a code and its upper-cased form parse to the same result |
| Currencies.ParseAcceptsAnyCase | engine/src/api/currency.py:80-82 | every mix of ASCII cases of a member's value parses to that member |
| Currencies.ParseRejectsLength | engine/src/api/currency.py:80-84 | a string that is not three characters long is refused |
| Currencies.ParseCanonicalCode | engine/src/api/currency.py:80-82 | a member's own code parses to that member |
| Currencies.ParseCaseExamples | engine/src/api/currency.py:80-82 | "usd", "Eur", "jpy" and "gbp" are accepted as USD, EUR, JPY and GBP |
| Currencies.ParseLongSExample | engine/src/api/currency.py:80-82 | "u\U{017F}d" is accepted as USD, because Python upper-cases U+017F to 'S' |
| Currencies.ParseRejectExamples | engine/src/api/currency.py:80-84 | "XXX" and " usd" are refused |
| Rounding.RoundHalfEven | engine/src/api/currency.py:72 | the integer nearest to x, a tie going to the even one; its properties are RoundHalfEvenBound, RoundHalfEvenNearest, RoundHalfEvenInteger and RoundHalfEvenMonotone |
| Rounding.RoundHalfEvenBound | engine/src/api/currency.py:72 | rounding to an integer moves a value by at most 1/2, and an exact tie goes to an even integer |
| Rounding.RoundHalfEvenNearest | engine/src/api/currency.py:72 | no integer is nearer than the rounded one, and an equally near other integer is odd |
| Rounding.RoundHalfEvenInteger | engine/src/api/currency.py:72 | an integer rounds to itself |
| Rounding.RoundHalfEvenMonotone | engine/src/api/currency.py:72 | rounding never reverses the order of two values |
| Rounding.RoundTo | engine/src/api/currency.py:72 | `round(x, ndigits)` at scale = 10^ndigits: RoundHalfEven(x * scale) / scale; its properties are RoundToBounds and RoundToOnGrid |
| Rounding.RoundToBounds | engine/src/api/currency.py:72 | `round(x, ndigits)` is within 1/(2 scale) of x, has at most ndigits decimals, and is nonnegative for nonnegative x |
| Rounding.RoundToOnGrid | engine/src/api/currency.py:72 | a value that already has at most ndigits decimals is unchanged |
| Rounding.Round2 | engine/src/api/currency.py:72 | `round(x, 2)` is RoundTo(x, 100.0); its properties are Round2Bounds, Round2OnGrid, Round2Monotone and Round2Idempotent |
| Rounding.Round4 | engine/src/api/currency.py:98 | `round(x, 4)` is RoundTo(x, 10000.0); its properties are Round4Bounds and RoundToOnGrid at scale 10000 |
| Rounding.Round2Bounds | engine/src/api/currency.py:72 | `round(x, 2)` is within 0.005 of x, is a whole number of cents, and is nonnegative for nonnegative x |
| Rounding.Round4Bounds | engine/src/api/currency.py:98 | `round(x, 4)` is within 0.00005 of x, has at most four decimals, and is nonnegative for nonnegative x |
| Rounding.Round2OnGrid | engine/src/api/currency.py:72 | an amount already in whole cents is unchanged by `round(x, 2)` |
| Rounding.Round2Monotone | engine/src/api/currency.py:72 | `round(x, 2)` never reverses the order of two amounts |
| Rounding.Round2Idempotent | engine/src/api/currency.py:72 | rounding a rounded amount again changes nothing |
| Converter.ConvertCurrency | engine/src/api/currency.py:55-72 | fails iff the amount is negative, always with "Amount cannot be negative"; a success is nonnegative |
| Converter.ValidRequest | engine/src/api/currency.py:14 | the request model's `ge=0` constraint; see ValidRequestOnlyFailsOnCodes |
| Converter.ConvertThroughUsd | engine/src/api/currency.py:68-72 | the distinct-currency path: amount / from rate * to rate, rounded to two decimals; its properties are PivotWithinHalfCent, PivotMonotone and PivotRoundTrip |
| Converter.PivotWithinHalfCent | engine/src/api/currency.py:68-72 | at positive rates, dividing, multiplying and rounding gives a whole number of cents within half a cent of the exact value, nonnegative for a nonnegative amount |
| Converter.PivotMonotone | engine/src/api/currency.py:68-72 | at fixed rates a larger amount never gives a smaller result |
| Converter.PivotRoundTrip | engine/src/api/currency.py:68-72 | converting at rates p to q and back recovers the amount within 0.005 + 0.005 * p / q |
| Converter.ConvertWithinHalfCent | engine/src/api/currency.py:65-72 | every successful conversion is within half a cent of amount / Rate(from) * Rate(to) |
| Converter.ZeroConvertsToZero | engine/src/api/currency.py:61-72 | zero converts to exactly zero between any two currencies |
| Converter.SameCurrencyIsIdentity | engine/src/api/currency.py:65-66 | equal currencies return the amount itself |
| Converter.SameCurrencySkipsRounding | engine/src/api/currency.py:65-72 | 10.999 USD to USD stays 10.999, while `round(10.999, 2)` is 11.0: the equal-currency path does not round |
| Converter.SameCurrencyAgreesOnWholeCents | engine/src/api/currency.py:65-72 | for an amount in whole cents, the missing rounding makes no difference |
| Converter.DistinctCurrenciesPivotThroughUsd | engine/src/api/currency.py:68-72 | distinct currencies give `round(amount / Rate(from) * Rate(to), 2)`, a whole number of cents |
| Converter.FromUsdMultipliesByRate | engine/src/api/currency.py:68-72 | from USD the result is `round(amount * Rate(to), 2)` |
| Converter.ToUsdDividesByRate | engine/src/api/currency.py:68-72 | into USD the result is `round(amount / Rate(from), 2)` |
| Converter.ConvertMonotone | engine/src/api/currency.py:55-72 | a larger nonnegative amount never converts to a smaller one |
| Converter.RoundTripBound | engine/src/api/currency.py:55-72 | converting a to b and back recovers the amount within 0.005 + 0.005 * Rate(a) / Rate(b) |
| Converter.RoundTripCanDriftBeyondACent | engine/src/api/currency.py:68-72 | 1 JPY converts to 0.01 USD, and 0.01 USD converts to 1.1 JPY |
| Converter.DisplayedRate | engine/src/api/currency.py:92-98 | Round4 of the to rate over the from rate; its properties are DisplayedRateWithinRounding and RoundedRatiosReciprocal |
| Converter.ExchangeRate | engine/src/api/currency.py:92-98 | the displayed rate between two members' table rates; its properties are ExchangeRateWithinRounding, ExchangeRateSameIsOne, ExchangeRateFromUsdIsTableRate, ExchangeRateReciprocal and ExchangeRateIgnoresAmount |
| Converter.DisplayedRateWithinRounding | engine/src/api/currency.py:92-98 | at positive rates the displayed rate is nonnegative and within 0.00005 of the exact ratio |
| Converter.ExchangeRateWithinRounding | engine/src/api/currency.py:92-98 | the displayed rate between two currencies is nonnegative and within 0.00005 of Rate(to) / Rate(from) |
| Converter.ExchangeRateSameIsOne | engine/src/api/currency.py:92-98 | between equal currencies the displayed rate is exactly 1 |
| Converter.ExchangeRateFromUsdIsTableRate | engine/src/api/currency.py:92-98 | from USD the displayed rate is exactly the table rate of the target |
| Converter.TableRateHasFourDecimals | engine/src/api/currency.py:43-52 | every table rate has at most four decimals, so `round(rate, 4)` leaves it unchanged |
| Converter.ExchangeRateReciprocal | engine/src/api/currency.py:92-98 | the displayed rates of the two directions multiply to 1 within 0.00005 * (k + w) + 0.00005^2, where k and w are the exact ratios |
| Converter.RoundedRatiosReciprocal | engine/src/api/currency.py:92-98 | the same reciprocity for any two positive rates |
| Converter.ConvertEndpoint | engine/src/api/currency.py:80-99 | every failure is a 400; success iff both codes parse and the amount is nonnegative; an unparsable code gives "Invalid currency code" before the amount is looked at; the detail is "Invalid currency code" iff a code failed to parse; a negative amount gives the converter's message; a success echoes the upper-cased codes and carries a nonnegative amount and rate |
| Converter.EndpointConvertsParsedCodes | engine/src/api/currency.py:86-99 | on valid input the response carries `convert_currency` of the parsed codes and their displayed rate |
| Converter.ExchangeRateIgnoresAmount | engine/src/api/currency.py:92-98 | two successful requests with the same codes report the same rate, whatever their amounts |
| Converter.ValidRequestOnlyFailsOnCodes | engine/src/api/currency.py:14 | a request satisfying `ge=0` either succeeds or fails with "Invalid currency code", never with the negative-amount message |
| Converter.EndpointSameCurrency | engine/src/api/currency.py:86-99 | two spellings of one currency answer the amount unchanged at rate 1.0 |
| Converter.ExampleUsdToEur | engine/src/api/currency.py:75-99 | 100 USD to EUR answers 85.0 at rate 0.85 |
| Converter.ExampleEurToUsd | engine/src/api/currency.py:75-99 | 100 EUR to USD answers 117.65 at rate 1.1765 |
| Converter.ExampleZeroJpyToGbp | engine/src/api/currency.py:75-99 | 0 "jpy" to "gbp" answers 0.0, "JPY", "GBP" at rate 0.0066 |
| Converter.ExampleUsdToUsd | engine/src/api/currency.py:75-99 | 50 "USD" to "usd" answers 50.0 at rate 1.0 |
| Converter.ExampleNegativeAmount | engine/src/api/currency.py:86-89 | -1 USD to EUR fails with 400 "Amount cannot be negative" |
| Converter.ExampleInvalidCode | engine/src/api/currency.py:80-84 | an unknown code fails with 400 "Invalid currency code", even when the amount is also negative |

## Left out

- Floating point: amounts and rates are exact reals. The model does not
  capture IEEE-754 rounding of the division at line 69, the multiplication at
  line 70 or the division at line 92. It also does not capture
  binary-representation effects on `round`, such as `round(2.675, 2)` giving
  2.67. Results agree with the source only up to these effects.
- Rounding.Round2: rounds the exact real value half-to-even. Python's `round`
  rounds the stored double, which can differ from the decimal value written
  in the source.
- Rounding.Round4: the same difference as `Round2`.
- NaN and infinite amounts have no counterpart among the reals.
- Converter.PivotWithinHalfCent, Converter.ConvertWithinHalfCent,
  Converter.RoundTripBound: these bounds hold only while the source's
  doubles stay finite. A finite amount can overflow in the source: 1e307
  USD to JPY multiplies to infinity, and `round(inf, 2)` is infinity. The
  model's reals never overflow, so the model has no such case.
- Currencies.UpperChar: upper-cases only ASCII letters, U+017F and U+0131.
  Every other character is kept as it is. Python's `str.upper()` also changes
  other characters, and some of them (such as 'ß' to "SS") into several
  characters. None of those results can spell a currency code, so the set of
  accepted codes is the same.
- The request model's own validation is not modelled: pydantic answers 422
  for a negative amount or a missing field before the endpoint runs.
  `ValidRequest` stands for the `ge=0` constraint, and `ConvertEndpoint` is
  total over all amounts.
- FastAPI routing, `async`, JSON serialisation of the response model and the
  `HTTPException` class itself are library behaviour. Only the status code and
  the detail text are modelled.
- `engine/main.py` is not part of this model. It holds application start-up,
  telemetry and the health and root handlers.
- `engine/tests/test_main.py` is not part of this model. Its tests do not
  exercise conversion.
