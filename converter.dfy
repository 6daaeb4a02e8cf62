/**
 * `convert_currency` and the conversion logic of the `/convert` endpoint:
 * code parsing, conversion through the USD pivot, the displayed exchange rate
 * and the mapping of every failure to an HTTP 400 error.
 */
module Converter {
  import opened Wrappers
  import opened RealBounds
  import opened Rounding
  import opened Currencies

  const NegativeAmountMessage: string := "Amount cannot be negative"
  const InvalidCodeMessage: string := "Invalid currency code"

  /** The `ValueError` raised by `convert_currency`, with its message. */
  datatype ValueError = ValueError(message: string)

  /** The `HTTPException` the endpoint raises. */
  datatype HttpException = HttpException(statusCode: int, detail: string)

  /** The request body: an amount and two currency codes as the caller spelled them. */
  datatype ConvertRequest = ConvertRequest(amount: real, fromCurrency: string, toCurrency: string)

  /** The response body. */
  datatype ConvertResponse = ConvertResponse(
    convertedAmount: real,
    fromCurrency: string,
    toCurrency: string,
    exchangeRate: real)

  /** The request model's own constraint on the amount (`ge=0`). */
  predicate ValidRequest(payload: ConvertRequest) {
    payload.amount >= 0.0
  }

  /**
   * `convert_currency`: rejects a negative amount, returns the amount itself
   * for equal currencies, and otherwise converts through USD and rounds to
   * two decimals.
   */
  function ConvertCurrency(amount: real, fromCurrency: Currency, toCurrency: Currency): (r: Result<real, ValueError>)
    ensures r.Failure? <==> amount < 0.0
    ensures r.Failure? ==> r.error.message == NegativeAmountMessage
    ensures r.Success? ==> r.value >= 0.0
  {
    if amount < 0.0 then
      Failure(ValueError(NegativeAmountMessage))
    else if fromCurrency == toCurrency then
      Success(amount)
    else
      var fromRate, toRate := Rate(fromCurrency), Rate(toCurrency);
      PivotWithinHalfCent(amount, fromRate, toRate);
      Success(ConvertThroughUsd(amount, fromRate, toRate))
  }

  /**
   * The arithmetic of the distinct-currency path at given rates: the amount
   * divided by the source rate is its USD value, which times the target rate
   * is rounded to cents.
   */
  function ConvertThroughUsd(amount: real, fromRate: real, toRate: real): real
    requires fromRate > 0.0
  {
    var usdAmount := amount / fromRate;
    var convertedAmount := usdAmount * toRate;
    Round2(convertedAmount)
  }

  /**
   * The definition of ConvertThroughUsd as a fact: where products of amounts
   * and rates are in scope the solver does not unfold the definition itself.
   */
  lemma ConvertThroughUsdIsRounded(amount: real, fromRate: real, toRate: real)
    requires fromRate > 0.0
    ensures ConvertThroughUsd(amount, fromRate, toRate) == Round2(amount / fromRate * toRate)
  {
  }

  /**
   * At positive rates the pivot result is a whole number of cents within half
   * a cent of the exact amount / fromRate * toRate, and nonnegative for a
   * nonnegative amount.
   */
  lemma PivotWithinHalfCent(amount: real, fromRate: real, toRate: real)
    requires fromRate > 0.0 && toRate > 0.0
    ensures Abs(ConvertThroughUsd(amount, fromRate, toRate) - amount / fromRate * toRate) <= 0.005
    ensures IsInteger(ConvertThroughUsd(amount, fromRate, toRate) * 100.0)
    ensures amount >= 0.0 ==> ConvertThroughUsd(amount, fromRate, toRate) >= 0.0
  {
    var exact := amount / fromRate * toRate;
    ConvertThroughUsdIsRounded(amount, fromRate, toRate);
    Round2Bounds(exact);
    if amount >= 0.0 {
      QuotientProductNonnegative(amount, fromRate, toRate);
    }
  }

  /** At fixed positive rates a larger amount never gives a smaller result. */
  lemma PivotMonotone(a1: real, a2: real, fromRate: real, toRate: real)
    requires a1 <= a2 && fromRate > 0.0 && toRate > 0.0
    ensures ConvertThroughUsd(a1, fromRate, toRate) <= ConvertThroughUsd(a2, fromRate, toRate)
  {
    DivideMonotone(a1, a2, fromRate);
    MultiplyMonotone(a1 / fromRate, a2 / fromRate, toRate);
    Round2Monotone(a1 / fromRate * toRate, a2 / fromRate * toRate);
    ConvertThroughUsdIsRounded(a1, fromRate, toRate);
    ConvertThroughUsdIsRounded(a2, fromRate, toRate);
  }

  /**
   * Converting at rates p to q and back at q to p recovers the amount up to
   * half a cent for the return hop plus half a cent of the intermediate
   * amount, scaled back by p / q.
   */
  lemma PivotRoundTrip(amount: real, p: real, q: real)
    requires p > 0.0 && q > 0.0
    ensures Abs(ConvertThroughUsd(ConvertThroughUsd(amount, p, q), q, p) - amount)
            <= 0.005 + 0.005 * (p / q)
  {
    var there := ConvertThroughUsd(amount, p, q);
    var back := ConvertThroughUsd(there, q, p);
    PivotWithinHalfCent(amount, p, q);
    PivotWithinHalfCent(there, q, p);
    RoundTripError(amount, there, back, p, q);
  }

  /** The error arithmetic of a round trip, with each hop's rounding error bounded by half a cent. */
  lemma RoundTripError(amount: real, there: real, back: real, p: real, q: real)
    requires p > 0.0 && q > 0.0
    requires Abs(there - amount / p * q) <= 0.005
    requires Abs(back - there / q * p) <= 0.005
    ensures Abs(back - amount) <= 0.005 + 0.005 * (p / q)
  {
    var e := there - amount / p * q;
    var r := p / q;
    ScaledError(amount, there, p, q, e, r);
    ScaleBound(e, 0.005, r);
  }

  /** The error e of the first hop, scaled by p / q, is the error the second hop inherits. */
  lemma ScaledError(amount: real, there: real, p: real, q: real, e: real, r: real)
    requires p > 0.0 && q > 0.0
    requires e == there - amount / p * q && r == p / q
    ensures e * r == there / q * p - amount
  {
    assert (amount / p * q) * (p / q) == amount;
  }

  /** Any successful conversion is within half a cent of the exact pivot value. */
  lemma ConvertWithinHalfCent(amount: real, fromCurrency: Currency, toCurrency: Currency)
    requires amount >= 0.0
    ensures Abs(ConvertCurrency(amount, fromCurrency, toCurrency).value
                - amount / Rate(fromCurrency) * Rate(toCurrency)) <= 0.005
  {
    var fromRate, toRate := Rate(fromCurrency), Rate(toCurrency);
    if fromCurrency != toCurrency {
      PivotWithinHalfCent(amount, fromRate, toRate);
    } else {
      QuotientCancels(amount, fromRate);
    }
  }

  /** Zero converts to zero between any two currencies. */
  lemma ZeroConvertsToZero(fromCurrency: Currency, toCurrency: Currency)
    ensures ConvertCurrency(0.0, fromCurrency, toCurrency) == Success(0.0)
  {
    if fromCurrency != toCurrency {
      var fromRate, toRate := Rate(fromCurrency), Rate(toCurrency);
      ConvertThroughUsdIsRounded(0.0, fromRate, toRate);
      assert 0.0 / fromRate * toRate == 0.0;
      Round2OnGrid(0.0);
    }
  }

  /** Equal currencies give back the amount exactly, without any rounding. */
  lemma SameCurrencyIsIdentity(amount: real, c: Currency)
    requires amount >= 0.0
    ensures ConvertCurrency(amount, c, c) == Success(amount)
  {
  }

  /**
   * The equal-currency path skips the rounding every other path applies:
   * 10.999 USD to USD stays 10.999, while rounding would give 11.0.
   */
  lemma SameCurrencySkipsRounding()
    ensures ConvertCurrency(10.999, USD, USD) == Success(10.999)
    ensures Round2(10.999) == 11.0
  {
  }

  /** For an amount in whole cents, skipping the rounding makes no difference. */
  lemma SameCurrencyAgreesOnWholeCents(amount: real, c: Currency)
    requires amount >= 0.0 && IsInteger(amount * 100.0)
    ensures ConvertCurrency(amount, c, c) == Success(Round2(amount))
  {
    Round2OnGrid(amount);
  }

  /**
   * Distinct currencies: divide by the source rate, multiply by the target
   * rate, round to cents; the result is a whole number of cents.
   */
  lemma DistinctCurrenciesPivotThroughUsd(amount: real, fromCurrency: Currency, toCurrency: Currency)
    requires amount >= 0.0 && fromCurrency != toCurrency
    ensures ConvertCurrency(amount, fromCurrency, toCurrency)
            == Success(Round2(amount / Rate(fromCurrency) * Rate(toCurrency)))
    ensures IsInteger(ConvertCurrency(amount, fromCurrency, toCurrency).value * 100.0)
  {
    var fromRate, toRate := Rate(fromCurrency), Rate(toCurrency);
    ConvertThroughUsdIsRounded(amount, fromRate, toRate);
    PivotWithinHalfCent(amount, fromRate, toRate);
  }

  /** From USD the conversion is a single multiplication by the target rate. */
  lemma FromUsdMultipliesByRate(amount: real, toCurrency: Currency)
    requires amount >= 0.0 && toCurrency != USD
    ensures ConvertCurrency(amount, USD, toCurrency) == Success(Round2(amount * Rate(toCurrency)))
  {
    var toRate := Rate(toCurrency);
    RateOfEachMember();
    ConvertThroughUsdIsRounded(amount, 1.0, toRate);
    assert amount / 1.0 * toRate == amount * toRate;
  }

  /** Into USD the conversion is a single division by the source rate. */
  lemma ToUsdDividesByRate(amount: real, fromCurrency: Currency)
    requires amount >= 0.0 && fromCurrency != USD
    ensures ConvertCurrency(amount, fromCurrency, USD) == Success(Round2(amount / Rate(fromCurrency)))
  {
    var fromRate := Rate(fromCurrency);
    RateOfEachMember();
    ConvertThroughUsdIsRounded(amount, fromRate, 1.0);
    assert amount / fromRate * 1.0 == amount / fromRate;
  }

  /** A larger amount never converts to a smaller one. */
  lemma ConvertMonotone(a1: real, a2: real, fromCurrency: Currency, toCurrency: Currency)
    requires 0.0 <= a1 <= a2
    ensures ConvertCurrency(a1, fromCurrency, toCurrency).value
            <= ConvertCurrency(a2, fromCurrency, toCurrency).value
  {
    if fromCurrency != toCurrency {
      PivotMonotone(a1, a2, Rate(fromCurrency), Rate(toCurrency));
    }
  }

  /**
   * Converting there and back again recovers the amount up to half a cent
   * for the return hop plus half a cent of the intermediate currency,
   * measured in the original one.
   */
  lemma RoundTripBound(amount: real, a: Currency, b: Currency)
    requires amount >= 0.0
    ensures var there := ConvertCurrency(amount, a, b).value;
            Abs(ConvertCurrency(there, b, a).value - amount) <= 0.005 + 0.005 * (Rate(a) / Rate(b))
  {
    if a != b {
      PivotRoundTrip(amount, Rate(a), Rate(b));
    }
  }

  /**
   * The round trip can be off by much more than a cent: 1 JPY becomes
   * 0.01 USD, which comes back as 1.1 JPY.
   */
  lemma RoundTripCanDriftBeyondACent()
    ensures ConvertCurrency(1.0, JPY, USD) == Success(0.01)
    ensures ConvertCurrency(0.01, USD, JPY) == Success(1.1)
  {
    assert Round2(1.0 / 110.0 * 1.0) == 0.01;
    assert Round2(0.01 / 1.0 * 110.0) == 1.1 by {
      Round2OnGrid(1.1);
    }
  }

  /** The displayed rate: target rate over source rate, rounded to four decimals. */
  function ExchangeRate(fromCurrency: Currency, toCurrency: Currency): real {
    DisplayedRate(Rate(fromCurrency), Rate(toCurrency))
  }

  /** `round(to_rate / from_rate, 4)` at given rates. */
  function DisplayedRate(fromRate: real, toRate: real): real
    requires fromRate > 0.0
  {
    Round4(toRate / fromRate)
  }

  /** The definition of DisplayedRate as a fact, for contexts with products of rates. */
  lemma DisplayedRateIsRounded(fromRate: real, toRate: real)
    requires fromRate > 0.0
    ensures DisplayedRate(fromRate, toRate) == Round4(toRate / fromRate)
  {
  }

  /** The displayed rate is nonnegative and within 0.00005 of the exact ratio. */
  lemma DisplayedRateWithinRounding(fromRate: real, toRate: real)
    requires fromRate > 0.0 && toRate > 0.0
    ensures DisplayedRate(fromRate, toRate) >= 0.0
    ensures Abs(DisplayedRate(fromRate, toRate) - toRate / fromRate) <= 0.00005
  {
    var exact := toRate / fromRate;
    DisplayedRateIsRounded(fromRate, toRate);
    ReciprocalRatios(fromRate, toRate);
    Round4Bounds(exact);
  }

  /** The displayed rate between two currencies is nonnegative and within 0.00005 of the ratio of their rates. */
  lemma ExchangeRateWithinRounding(fromCurrency: Currency, toCurrency: Currency)
    ensures ExchangeRate(fromCurrency, toCurrency) >= 0.0
    ensures Abs(ExchangeRate(fromCurrency, toCurrency) - Rate(toCurrency) / Rate(fromCurrency)) <= 0.00005
  {
    DisplayedRateWithinRounding(Rate(fromCurrency), Rate(toCurrency));
  }

  /** Between equal currencies the displayed rate is exactly 1. */
  lemma ExchangeRateSameIsOne(c: Currency)
    ensures ExchangeRate(c, c) == 1.0
  {
    var rate := Rate(c);
    DisplayedRateIsRounded(rate, rate);
    assert rate / rate == 1.0;
    RoundToOnGrid(1.0, 10000.0);
  }

  /** From USD the displayed rate is the table's rate, which has at most four decimals. */
  lemma ExchangeRateFromUsdIsTableRate(c: Currency)
    ensures ExchangeRate(USD, c) == Rate(c)
  {
    var rate := Rate(c);
    TableRateHasFourDecimals(c);
    assert Rate(USD) == 1.0;
    DisplayedRateIsRounded(1.0, rate);
    RoundToOnGrid(rate, 10000.0);
  }

  /** Every rate in the table has at most four decimals (in fact at most two). */
  lemma TableRateHasFourDecimals(c: Currency)
    ensures IsInteger(Rate(c) * 10000.0)
  {
    match c
    case USD => case EUR => case GBP => case JPY =>
    case CAD => case AUD => case CHF => case CNY =>
  }

  /**
   * The displayed rates u and v of the two directions multiply to 1 up to the
   * four-decimal rounding of each: with k and w the exact rates of the two
   * directions, u * v is within 0.00005 * (k + w) + 0.00005^2 of 1.
   */
  lemma ExchangeRateReciprocal(a: Currency, b: Currency, u: real, v: real)
    requires u == ExchangeRate(a, b) && v == ExchangeRate(b, a)
    ensures var k, w := Rate(b) / Rate(a), Rate(a) / Rate(b);
            Abs(u * v - 1.0) <= 0.00005 * k + 0.00005 * w + 0.00005 * 0.00005
  {
    RoundedRatiosReciprocal(Rate(a), Rate(b), u, v);
  }

  /** u == DisplayedRate(p, q) and v == DisplayedRate(q, p) multiply to within 0.00005 * (q / p + p / q) + 0.00005^2 of 1. */
  lemma RoundedRatiosReciprocal(p: real, q: real, u: real, v: real)
    requires p > 0.0 && q > 0.0
    requires u == DisplayedRate(p, q) && v == DisplayedRate(q, p)
    ensures Abs(u * v - 1.0) <= 0.00005 * (q / p) + 0.00005 * (p / q) + 0.00005 * 0.00005
  {
    DisplayedRateWithinRounding(p, q);
    DisplayedRateWithinRounding(q, p);
    ApproximateReciprocals(u, v, p, q, 0.00005);
  }

  /** Approximations u of q / p and v of p / q, each within d, multiply to 1 within d * (q / p + p / q) + d^2. */
  lemma ApproximateReciprocals(u: real, v: real, p: real, q: real, d: real)
    requires p > 0.0 && q > 0.0
    requires Abs(u - q / p) <= d && Abs(v - p / q) <= d
    ensures Abs(u * v - 1.0) <= d * (q / p) + d * (p / q) + d * d
  {
    var k, w := q / p, p / q;
    ReciprocalRatios(p, q);
    ProductOfApproximations(u, v, k, w, d);
  }

  /**
   * The conversion part of `convert_endpoint`: parse both codes (failing
   * with "Invalid currency code"), convert (a `ValueError` becomes a 400 with
   * its message), then answer with the canonical codes and the displayed rate.
   */
  function ConvertEndpoint(payload: ConvertRequest): (r: Result<ConvertResponse, HttpException>)
    ensures r.Failure? ==> r.error.statusCode == 400
    ensures r.Success? <==>
      Parse(payload.fromCurrency).Some? && Parse(payload.toCurrency).Some? && payload.amount >= 0.0
    ensures Parse(payload.fromCurrency).None? || Parse(payload.toCurrency).None?
            ==> r.Failure? && r.error.detail == InvalidCodeMessage
    ensures Parse(payload.fromCurrency).Some? && Parse(payload.toCurrency).Some? && payload.amount < 0.0
            ==> r.Failure? && r.error.detail == NegativeAmountMessage
    ensures r.Failure? ==>
      (r.error.detail == InvalidCodeMessage <==>
         Parse(payload.fromCurrency).None? || Parse(payload.toCurrency).None?)
    ensures r.Success? ==> r.value.fromCurrency == Upper(payload.fromCurrency)
    ensures r.Success? ==> r.value.toCurrency == Upper(payload.toCurrency)
    ensures r.Success? ==> r.value.convertedAmount >= 0.0 && r.value.exchangeRate >= 0.0
  {
    match Parse(payload.fromCurrency)
    case None => Failure(HttpException(400, InvalidCodeMessage))
    case Some(fromCurr) =>
      match Parse(payload.toCurrency)
      case None => Failure(HttpException(400, InvalidCodeMessage))
      case Some(toCurr) =>
        match ConvertCurrency(payload.amount, fromCurr, toCurr)
        case Failure(e) => Failure(HttpException(400, e.message))
        case Success(convertedAmount) =>
          ExchangeRateWithinRounding(fromCurr, toCurr);
          Success(ConvertResponse(
            convertedAmount,
            Code(fromCurr),
            Code(toCurr),
            ExchangeRate(fromCurr, toCurr)))
  }

  /** On success the response carries the conversion and the displayed rate of the parsed codes. */
  lemma EndpointConvertsParsedCodes(payload: ConvertRequest, f: Currency, t: Currency)
    requires Parse(payload.fromCurrency) == Some(f) && Parse(payload.toCurrency) == Some(t)
    requires payload.amount >= 0.0
    ensures ConvertEndpoint(payload).Success?
    ensures ConvertEndpoint(payload).value.convertedAmount == ConvertCurrency(payload.amount, f, t).value
    ensures ConvertEndpoint(payload).value.exchangeRate == ExchangeRate(f, t)
  {
  }

  /** The displayed rate depends on the two codes only, never on the amount. */
  lemma ExchangeRateIgnoresAmount(p1: ConvertRequest, p2: ConvertRequest)
    requires p1.fromCurrency == p2.fromCurrency && p1.toCurrency == p2.toCurrency
    requires ConvertEndpoint(p1).Success? && ConvertEndpoint(p2).Success?
    ensures ConvertEndpoint(p1).value.exchangeRate == ConvertEndpoint(p2).value.exchangeRate
  {
  }

  /**
   * A request that satisfies the request model's `ge=0` never reaches the
   * negative-amount error: it either succeeds or has an invalid code.
   */
  lemma ValidRequestOnlyFailsOnCodes(payload: ConvertRequest)
    requires ValidRequest(payload)
    ensures ConvertEndpoint(payload).Success?
            || ConvertEndpoint(payload) == Failure(HttpException(400, InvalidCodeMessage))
  {
  }

  /**
   * Two spellings of the same currency convert the amount unchanged at a
   * displayed rate of exactly 1.
   */
  lemma EndpointSameCurrency(payload: ConvertRequest, c: Currency)
    requires Parse(payload.fromCurrency) == Some(c) && Parse(payload.toCurrency) == Some(c)
    requires payload.amount >= 0.0
    ensures ConvertEndpoint(payload)
            == Success(ConvertResponse(payload.amount, Code(c), Code(c), 1.0))
  {
    ExchangeRateSameIsOne(c);
  }

  /** 100 USD is 85 EUR at a displayed rate of 0.85. */
  lemma ExampleUsdToEur()
    ensures ConvertEndpoint(ConvertRequest(100.0, "USD", "EUR"))
            == Success(ConvertResponse(85.0, "USD", "EUR", 0.85))
  {
    ParseCanonicalCode(USD);
    ParseCanonicalCode(EUR);
    ExchangeRateFromUsdIsTableRate(EUR);
    FromUsdMultipliesByRate(100.0, EUR);
    RateOfEachMember();
    assert Round2(100.0 * 0.85) == 85.0 by {
      Round2OnGrid(85.0);
    }
  }

  /** 100 EUR is 117.65 USD (100 / 0.85 rounded) at a displayed rate of 1.1765. */
  lemma ExampleEurToUsd()
    ensures ConvertEndpoint(ConvertRequest(100.0, "EUR", "USD"))
            == Success(ConvertResponse(117.65, "EUR", "USD", 1.1765))
  {
    ParseCanonicalCode(USD);
    ParseCanonicalCode(EUR);
    ToUsdDividesByRate(100.0, EUR);
    RateOfEachMember();
    assert Round2(100.0 / 0.85) == 117.65;
    DisplayedRateIsRounded(0.85, 1.0);
    assert Round4(1.0 / 0.85) == 1.1765;
  }

  /** Zero converts to zero; lower-case codes come back upper-cased. */
  lemma ExampleZeroJpyToGbp()
    ensures ConvertEndpoint(ConvertRequest(0.0, "jpy", "gbp"))
            == Success(ConvertResponse(0.0, "JPY", "GBP", 0.0066))
  {
    ParseCaseExamples();
    ZeroConvertsToZero(JPY, GBP);
    RateOfEachMember();
    DisplayedRateIsRounded(110.0, 0.73);
    assert Round4(0.73 / 110.0) == 0.0066;
  }

  /** "USD" and "usd" are the same currency: the amount comes back exactly, at rate 1. */
  lemma ExampleUsdToUsd()
    ensures ConvertEndpoint(ConvertRequest(50.0, "USD", "usd"))
            == Success(ConvertResponse(50.0, "USD", "USD", 1.0))
  {
    ParseCanonicalCode(USD);
    ParseCaseExamples();
    ExchangeRateSameIsOne(USD);
  }

  /** A negative amount with valid codes is refused with the converter's message. */
  lemma ExampleNegativeAmount()
    ensures ConvertEndpoint(ConvertRequest(-1.0, "USD", "EUR"))
            == Failure(HttpException(400, NegativeAmountMessage))
  {
    ParseCanonicalCode(USD);
    ParseCanonicalCode(EUR);
  }

  /** An unknown code is refused, and the codes are checked before the amount. */
  lemma ExampleInvalidCode()
    ensures ConvertEndpoint(ConvertRequest(100.0, "XXX", "USD"))
            == Failure(HttpException(400, InvalidCodeMessage))
    ensures ConvertEndpoint(ConvertRequest(-1.0, "USD", "XXX"))
            == Failure(HttpException(400, InvalidCodeMessage))
  {
    ParseCanonicalCode(USD);
    ParseRejectExamples();
  }
}
