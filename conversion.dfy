/**
 * Rate resolution and conversion: `GetCurrencyExchangeRate` reads a rate from the Currency
 * table or from the remote quote service, and `ConvertCurrency` turns an amount of one
 * currency into another through their two USD rates, rounded to cents.
 */
module Conversion {
  import opened Wrappers
  import opened Currencies
  import Registry

  /** The largest value of C#'s `decimal`, 2^96 - 1. */
  const DecimalMax: real := 79228162514264337593543950335.0

  /** `x` can be held by a `decimal` without overflow. */
  predicate InDecimalRange(x: real) {
    -DecimalMax <= x <= DecimalMax
  }

  /** `x` is a whole number of hundredths. */
  predicate HasTwoDecimals(x: real) {
    (x * 100.0).Floor as real == x * 100.0
  }

  /**
   * `Math.Round(x, 2)` on a `decimal`: the nearest whole number of hundredths, and on a tie
   * the even one (the default `MidpointRounding.ToEven`).
   */
  function Round2(x: real): (r: real)
    ensures HasTwoDecimals(r)
    ensures -0.005 <= r - x <= 0.005
    ensures (r - x == 0.005 || x - r == 0.005) ==> (r * 100.0).Floor % 2 == 0
  {
    var n := (x * 100.0).Floor;
    var frac := x * 100.0 - n as real;
    var k := if frac < 0.5 then n else if frac > 0.5 then n + 1 else if n % 2 == 0 then n else n + 1;
    k as real / 100.0
  }

  /** A whole number of hundredths closer to `x` than half a cent is what `Round2` gives. */
  lemma Round2Unique(x: real, y: real)
    requires HasTwoDecimals(y) && -0.005 < y - x < 0.005
    ensures Round2(x) == y
  {
    var r := Round2(x);
    var a, b := (r * 100.0).Floor, (y * 100.0).Floor;
    assert -1.0 < (a - b) as real < 1.0;
  }

  /** Rounding an amount that already has two decimals leaves it as it is. */
  lemma Round2OfCents(x: real)
    requires HasTwoDecimals(x)
    ensures Round2(x) == x
  {
    Round2Unique(x, x);
  }

  /** Rounding twice is rounding once. */
  lemma Round2Idempotent(x: real)
    ensures Round2(Round2(x)) == Round2(x)
  {
    Round2OfCents(Round2(x));
  }

  /** Rounding never reverses the order of two amounts. */
  lemma Round2Monotone(x: real, y: real)
    requires x <= y
    ensures Round2(x) <= Round2(y)
  {
    var n, m := (x * 100.0).Floor, (y * 100.0).Floor;
    assert n <= m;
  }

  /**
   * `GetCurrencyExchangeRate`. With `useAPI` the rate is what the remote quote service gives for
   * the code, which `remote` stands for; otherwise it is the rate of the row found by an exact
   * lookup of the code, and a code with no row raises rather than yielding a default rate.
   */
  function GetCurrencyExchangeRate(table: seq<Currency>, remote: string -> Option<real>,
                                   code: string, useAPI: bool): (r: Result<real, Error>)
    ensures useAPI ==> (r.Ok? <==> remote(code).Some?)
    ensures useAPI && r.Ok? ==> r.value == remote(code).value
    ensures useAPI && r.Err? ==> r.error == RemoteRateMissing
    ensures !useAPI ==> (r.Ok? <==> HasCode(table, code))
    ensures !useAPI && r.Ok? ==> r.value == GetCurrencyByCurrencyCode(table, code).value.rate
    ensures !useAPI && r.Err? ==> r.error == RateNotFound
  {
    if useAPI then
      match remote(code)
      case None => Err(RemoteRateMissing)
      case Some(rate) => Ok(rate)
    else
      match GetCurrencyByCurrencyCode(table, code)
      case None => Err(RateNotFound)
      case Some(currency) => Ok(currency.rate)
  }

  /**
   * `ConvertCurrency`: a negative amount is refused before any rate is read; then the rate of
   * `from` and the rate of `to` are resolved from the same source, and the first failure is
   * raised as it is. The quotient `toRate / fromRate` must be a finite `decimal` (a zero
   * `fromRate` makes it infinite, or NaN when `toRate` is zero too), and so must the product
   * with the amount, which is then rounded to cents.
   */
  function ConvertCurrency(table: seq<Currency>, remote: string -> Option<real>, from: string,
                           to: string, amount: real, useAPI: bool): (r: Result<real, Error>)
    ensures amount < 0.0 ==> r == Err(NegativeAmount)
    ensures r.Ok? ==> HasTwoDecimals(r.value)
  {
    if amount < 0.0 then Err(NegativeAmount)
    else
      var fromRate :- GetCurrencyExchangeRate(table, remote, from, useAPI);
      var toRate :- GetCurrencyExchangeRate(table, remote, to, useAPI);
      ConvertAtRates(fromRate, toRate, amount)
  }

  /**
   * The arithmetic of `ConvertCurrency` once both rates are known: `Convert.ToDecimal` of the
   * quotient raises on a non-finite or out-of-range value, the `decimal` product raises on
   * overflow, and the product is rounded to cents. It succeeds exactly when neither raises.
   */
  function ConvertAtRates(fromRate: real, toRate: real, amount: real): (r: Result<real, Error>)
    ensures r.Ok? <==> fromRate != 0.0 && InDecimalRange(toRate / fromRate)
                       && InDecimalRange(toRate / fromRate * amount)
    ensures r.Err? ==> r.error == DecimalOverflow
    ensures r.Ok? ==> -0.005 <= r.value - toRate / fromRate * amount <= 0.005
    ensures r.Ok? ==> HasTwoDecimals(r.value)
  {
    if fromRate == 0.0 then Err(DecimalOverflow)
    else
      var conversionRate := toRate / fromRate;
      if !InDecimalRange(conversionRate) then Err(DecimalOverflow)
      else
        var converted := conversionRate * amount;
        if !InDecimalRange(converted) then Err(DecimalOverflow)
        else Ok(Round2(converted))
  }

  /** A successful `ConvertAtRates` is the rounded product of the quotient and the amount. */
  lemma ConvertAtRatesValue(fromRate: real, toRate: real, amount: real, x: real)
    requires ConvertAtRates(fromRate, toRate, amount).Ok?
    requires x == toRate / fromRate * amount
    ensures ConvertAtRates(fromRate, toRate, amount) == Ok(Round2(x))
  {
  }

  /** In a valid table the database rate of a stored code is the rate of its one row. */
  lemma DatabaseRateOfRow(s: Registry.Store, remote: string -> Option<real>, i: int)
    requires Registry.Valid(s) && 0 <= i < |s.records|
    ensures GetCurrencyExchangeRate(s.records, remote, s.records[i].code, false) == Ok(s.records[i].rate)
  {
    Registry.LookupsFindTheRow(s, i);
  }

  /** The remote path never reads the table: any two tables give the same remote rate. */
  lemma RemoteRateIgnoresTable(t: seq<Currency>, u: seq<Currency>, remote: string -> Option<real>, code: string)
    ensures GetCurrencyExchangeRate(t, remote, code, true) == GetCurrencyExchangeRate(u, remote, code, true)
  {
  }

  /**
   * A failed lookup aborts the conversion with its own error: that of `from` when it fails,
   * else that of `to`; there is no partial result.
   */
  lemma ConvertPropagatesLookupFailure(table: seq<Currency>, remote: string -> Option<real>,
                                       from: string, to: string, amount: real, useAPI: bool)
    requires amount >= 0.0
    ensures GetCurrencyExchangeRate(table, remote, from, useAPI).Err? ==>
              ConvertCurrency(table, remote, from, to, amount, useAPI)
                == Err(GetCurrencyExchangeRate(table, remote, from, useAPI).error)
    ensures GetCurrencyExchangeRate(table, remote, from, useAPI).Ok?
            && GetCurrencyExchangeRate(table, remote, to, useAPI).Err? ==>
              ConvertCurrency(table, remote, from, to, amount, useAPI)
                == Err(GetCurrencyExchangeRate(table, remote, to, useAPI).error)
  {
  }

  /**
   * A conversion succeeds only for an amount of at least 0 whose two rates both resolve, and
   * then it is `ConvertAtRates` of those rates.
   */
  lemma ConvertResult(table: seq<Currency>, remote: string -> Option<real>,
                      from: string, to: string, amount: real, useAPI: bool)
    requires ConvertCurrency(table, remote, from, to, amount, useAPI).Ok?
    ensures amount >= 0.0
    ensures GetCurrencyExchangeRate(table, remote, from, useAPI).Ok?
    ensures GetCurrencyExchangeRate(table, remote, to, useAPI).Ok?
    ensures ConvertCurrency(table, remote, from, to, amount, useAPI)
              == ConvertAtRates(GetCurrencyExchangeRate(table, remote, from, useAPI).value,
                                GetCurrencyExchangeRate(table, remote, to, useAPI).value, amount)
  {
    ConvertPropagatesLookupFailure(table, remote, from, to, amount, useAPI);
    var f := GetCurrencyExchangeRate(table, remote, from, useAPI).value;
    var t := GetCurrencyExchangeRate(table, remote, to, useAPI).value;
    ConvertAtRatesOfRates(table, remote, from, to, amount, useAPI, f, t);
  }

  /** Once both rates resolve, a conversion is `ConvertAtRates` of those rates. */
  lemma ConvertAtRatesOfRates(table: seq<Currency>, remote: string -> Option<real>,
                              from: string, to: string, amount: real, useAPI: bool, f: real, t: real)
    requires amount >= 0.0
    requires GetCurrencyExchangeRate(table, remote, from, useAPI) == Ok(f)
    requires GetCurrencyExchangeRate(table, remote, to, useAPI) == Ok(t)
    ensures ConvertCurrency(table, remote, from, to, amount, useAPI) == ConvertAtRates(f, t, amount)
  {
  }

  /**
   * With an amount of at least 0 and both rates resolved, the conversion succeeds exactly when
   * `fromRate` is not zero and the quotient and the product fit a `decimal`, and it is then the
   * product `toRate / fromRate * amount` rounded to cents.
   */
  lemma ConvertAtResolvedRates(table: seq<Currency>, remote: string -> Option<real>,
                               from: string, to: string, amount: real, useAPI: bool, f: real, t: real)
    requires amount >= 0.0
    requires GetCurrencyExchangeRate(table, remote, from, useAPI) == Ok(f)
    requires GetCurrencyExchangeRate(table, remote, to, useAPI) == Ok(t)
    ensures ConvertCurrency(table, remote, from, to, amount, useAPI).Ok? <==>
              f != 0.0 && InDecimalRange(t / f) && InDecimalRange(t / f * amount)
    ensures ConvertCurrency(table, remote, from, to, amount, useAPI).Ok? ==>
              ConvertCurrency(table, remote, from, to, amount, useAPI) == Ok(Round2(t / f * amount))
  {
    ConvertAtRatesOfRates(table, remote, from, to, amount, useAPI, f, t);
    if ConvertAtRates(f, t, amount).Ok? {
      ConvertAtRatesValue(f, t, amount, t / f * amount);
    }
  }

  /**
   * Converting a currency to itself at a nonzero rate gives the amount rounded to cents, from
   * either source: the quotient of a rate by itself is 1.
   */
  lemma ConvertSameCode(table: seq<Currency>, remote: string -> Option<real>,
                        code: string, amount: real, useAPI: bool)
    requires 0.0 <= amount <= DecimalMax
    requires GetCurrencyExchangeRate(table, remote, code, useAPI).Ok?
    requires GetCurrencyExchangeRate(table, remote, code, useAPI).value != 0.0
    ensures ConvertCurrency(table, remote, code, code, amount, useAPI) == Ok(Round2(amount))
  {
    var rate := GetCurrencyExchangeRate(table, remote, code, useAPI).value;
    assert rate / rate == 1.0;
  }

  /**
   * From the database of a valid table, converting more money never gives less: the stored
   * rates are at least 0, so the quotient is too, and rounding keeps the order.
   */
  lemma ConvertMonotone(s: Registry.Store, remote: string -> Option<real>,
                        from: string, to: string, a: real, b: real)
    requires Registry.Valid(s) && a <= b
    requires ConvertCurrency(s.records, remote, from, to, a, false).Ok?
    requires ConvertCurrency(s.records, remote, from, to, b, false).Ok?
    ensures ConvertCurrency(s.records, remote, from, to, a, false).value
              <= ConvertCurrency(s.records, remote, from, to, b, false).value
  {
    var f := GetCurrencyExchangeRate(s.records, remote, from, false).value;
    var t := GetCurrencyExchangeRate(s.records, remote, to, false).value;
    DatabaseRateNonNegative(s, remote, from);
    DatabaseRateNonNegative(s, remote, to);
    assert ConvertCurrency(s.records, remote, from, to, a, false) == ConvertAtRates(f, t, a);
    assert ConvertCurrency(s.records, remote, from, to, b, false) == ConvertAtRates(f, t, b);
    ConvertAtRatesMonotone(f, t, a, b);
  }

  /** At rates of at least 0, a larger amount converts to at least as much. */
  lemma ConvertAtRatesMonotone(fromRate: real, toRate: real, a: real, b: real)
    requires fromRate >= 0.0 && toRate >= 0.0 && a <= b
    requires ConvertAtRates(fromRate, toRate, a).Ok? && ConvertAtRates(fromRate, toRate, b).Ok?
    ensures ConvertAtRates(fromRate, toRate, a).value <= ConvertAtRates(fromRate, toRate, b).value
  {
    ConvertAtRatesValue(fromRate, toRate, a, toRate / fromRate * a);
    ConvertAtRatesValue(fromRate, toRate, b, toRate / fromRate * b);
    RoundedProductMonotone(toRate, fromRate, a, b, toRate / fromRate * a, toRate / fromRate * b);
  }

  /** At rates of at least 0, the rounded product of the quotient grows with the amount. */
  lemma RoundedProductMonotone(t: real, f: real, a: real, b: real, x: real, y: real)
    requires t >= 0.0 && f > 0.0 && a <= b
    requires x == t / f * a && y == t / f * b
    ensures Round2(x) <= Round2(y)
  {
    var q := t / f;
    QuotientNonNegative(t, f, q);
    ScaleMonotone(q, a, b, x, y);
    Round2Monotone(x, y);
  }

  /** A rate read from a valid table is at least 0. */
  lemma DatabaseRateNonNegative(s: Registry.Store, remote: string -> Option<real>, code: string)
    requires Registry.Valid(s)
    requires GetCurrencyExchangeRate(s.records, remote, code, false).Ok?
    ensures GetCurrencyExchangeRate(s.records, remote, code, false).value >= 0.0
  {
    var i := IndexOfCode(s.records, code).value;
    assert Registry.ValidRecord(s.records[i]);
  }

  lemma QuotientNonNegative(t: real, f: real, q: real)
    requires t >= 0.0 && f > 0.0 && q == t / f
    ensures q >= 0.0
  {
    assert q * f == t;
  }

  lemma ScaleMonotone(q: real, a: real, b: real, x: real, y: real)
    requires q >= 0.0 && a <= b && x == q * a && y == q * b
    ensures x <= y
  {
    assert y - x == q * (b - a);
  }
}
