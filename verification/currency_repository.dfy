/** The rate cache and the conversion (repository/CurrencyRepository.kt):
    rates for the source currency come from the cache when the cached
    snapshot is less than one whole hour old and from the rate API
    otherwise, in which case the fresh snapshot is cached; every failure is
    reported as one "Failed to fetch exchange rate" error. The repository
    sees its cache through its own snapshot shape, stamped with a
    `LocalDateTime`; the API answer is an input. */
module CurrencyRepository {
  import opened Wrappers
  import opened Text
  import opened DateTime
  import opened Entities
  import ExchangeRateDao

  /** A cached snapshot as the repository reads and writes it. */
  datatype CachedRates = CachedRates(baseCurrency: string, rates: map<string, real>, timestamp: LocalDateTime)

  /** The answer, the snapshot written to the cache (if any), and whether
      the API was called. */
  datatype Conversion = Conversion(result: Result<real, string>, inserted: Option<CachedRates>, apiCalled: bool)

  const FetchErrorPrefix: string := "Failed to fetch exchange rate: "
  const CurrencyNotSupported: string := "Currency not supported"

  /** A cached snapshot is used while fewer than one whole hour separates
      its stamp from now. */
  predicate Fresh(cached: CachedRates, now: LocalDateTime) {
    HoursBetween(cached.timestamp, now) < 1
  }

  /** The rate for `toCurrency` applied to `amount`. */
  function Apply(rates: map<string, real>, amount: real, toCurrency: string): (r: Result<real, string>)
    ensures toCurrency in rates ==> r == Success(amount * rates[toCurrency])
    ensures toCurrency !in rates ==> r == Failure(FetchErrorPrefix + CurrencyNotSupported)
  {
    if toCurrency in rates then Success(amount * rates[toCurrency])
    else Failure(FetchErrorPrefix + CurrencyNotSupported)
  }

  /** `convertCurrency(amount, fromCurrency, toCurrency)`. Everything inside
      the `try` that can throw is an input, each carrying the exception's
      message as the string template renders it:
      - `cached`: the first snapshot the cache holds for `fromCurrency`, or
        the message of a failing cache read;
      - `now`: the clock read the freshness test uses;
      - `api`: what `getLatestRates(fromCurrency)` answers: its rates, or the
        message of the exception it throws;
      - `stampedAt`: the second clock read, which stamps the snapshot cached;
      - `insertFailure`: the message of a failing cache write, if it fails. */
  function ConvertCurrency(
    amount: real, fromCurrency: string, toCurrency: string,
    cached: Result<Option<CachedRates>, string>, now: LocalDateTime,
    api: Result<map<string, real>, string>, stampedAt: LocalDateTime, insertFailure: Option<string>
  ): (c: Conversion)
    ensures cached.Failure? ==> c == Conversion(Failure(FetchErrorPrefix + cached.error), None, false)
    ensures c.apiCalled <==> cached.Success? && !(cached.value.Some? && Fresh(cached.value.value, now))
    ensures cached.Success? && !c.apiCalled ==>
      c.inserted.None? && c.result == Apply(cached.value.value.rates, amount, toCurrency)
    ensures c.apiCalled && api.Success? && insertFailure.None? ==>
      c.inserted == Some(CachedRates(fromCurrency, api.value, stampedAt)) && c.result == Apply(api.value, amount, toCurrency)
    ensures c.apiCalled && api.Success? && insertFailure.Some? ==>
      c.inserted.None? && c.result == Failure(FetchErrorPrefix + insertFailure.value)
    ensures c.apiCalled && api.Failure? ==>
      c.inserted.None? && c.result == Failure(FetchErrorPrefix + api.error)
  {
    match cached
    case Failure(message) => Conversion(Failure(FetchErrorPrefix + message), None, false)
    case Success(snapshot) =>
      if snapshot.Some? && Fresh(snapshot.value, now) then
        Conversion(Apply(snapshot.value.rates, amount, toCurrency), None, false)
      else
        match api
        case Failure(message) => Conversion(Failure(FetchErrorPrefix + message), None, true)
        case Success(rates) =>
          match insertFailure
          case Some(message) => Conversion(Failure(FetchErrorPrefix + message), None, true)
          case None => Conversion(Apply(rates, amount, toCurrency), Some(CachedRates(fromCurrency, rates, stampedAt)), true)
  }

  /** Every way the conversion can fail is reported under the one fetch
      prefix. A snapshot is cached exactly when the API was called, answered
      and the write went through; the only failure that still leaves it
      cached is a target currency missing from the fresh rates. */
  lemma ConvertFailuresShareOnePrefix(
    amount: real, fromCurrency: string, toCurrency: string,
    cached: Result<Option<CachedRates>, string>, now: LocalDateTime,
    api: Result<map<string, real>, string>, stampedAt: LocalDateTime, insertFailure: Option<string>)
    ensures var c := ConvertCurrency(amount, fromCurrency, toCurrency, cached, now, api, stampedAt, insertFailure);
            c.result.Failure? ==> StartsWith(c.result.error, FetchErrorPrefix)
    ensures var c := ConvertCurrency(amount, fromCurrency, toCurrency, cached, now, api, stampedAt, insertFailure);
            c.inserted.Some? <==> c.apiCalled && api.Success? && insertFailure.None?
    ensures var c := ConvertCurrency(amount, fromCurrency, toCurrency, cached, now, api, stampedAt, insertFailure);
            c.inserted.Some? ==> c.result.Success? || toCurrency !in api.value
  {
    var c := ConvertCurrency(amount, fromCurrency, toCurrency, cached, now, api, stampedAt, insertFailure);
    if c.result.Failure? {
      var tail := c.result.error[|FetchErrorPrefix|..];
      assert c.result.error == FetchErrorPrefix + tail;
    }
  }

  /** The API is skipped exactly when the cache read fails or yields a
      snapshot less than an hour old; a snapshot stamped in the future
      counts as fresh. */
  lemma CacheHitIffWithinHour(
    amount: real, fromCurrency: string, toCurrency: string,
    cached: Result<Option<CachedRates>, string>, now: LocalDateTime,
    api: Result<map<string, real>, string>, stampedAt: LocalDateTime, insertFailure: Option<string>)
    ensures !ConvertCurrency(amount, fromCurrency, toCurrency, cached, now, api, stampedAt, insertFailure).apiCalled <==>
      cached.Failure? || (cached.value.Some? && Nanos(now) - Nanos(cached.value.value.timestamp) < NanosPerHour)
  {
    if cached.Success? && cached.value.Some? {
      LessThanOneHourIff(cached.value.value.timestamp, now);
    }
  }

  /** A fresh cache answering 0.85 for EUR converts 100 USD to 85 EUR. */
  lemma FreshCacheExample(
    now: LocalDateTime, api: Result<map<string, real>, string>, stampedAt: LocalDateTime, insertFailure: Option<string>)
    ensures ConvertCurrency(100.0, "USD", "EUR", Success(Some(CachedRates("USD", map["EUR" := 0.85], now))), now,
                            api, stampedAt, insertFailure)
      == Conversion(Success(85.0), None, false)
  {
  }

  /** The cache offers no currency it was not given, so asking it for one
      fails without touching the API. */
  lemma UnsupportedCurrencyFails(
    now: LocalDateTime, api: Result<map<string, real>, string>, stampedAt: LocalDateTime, insertFailure: Option<string>)
    ensures ConvertCurrency(100.0, "USD", "JPY", Success(Some(CachedRates("USD", map["EUR" := 0.85], now))), now,
                            api, stampedAt, insertFailure)
      == Conversion(Failure(FetchErrorPrefix + CurrencyNotSupported), None, false)
  {
  }

  /** `deleteOldRates(timestamp)`: hands the table the UTC epoch second. */
  function DeleteOldRates(table: ExchangeRateDao.Table, timestamp: LocalDateTime): (r: (ExchangeRateDao.Table, int))
    ensures forall x :: x in r.0 <==> x in table && x.timestamp >= ToEpochSecond(timestamp)
    ensures |table| == |r.0| + r.1
  {
    ExchangeRateDao.DeleteOldRates(table, ToEpochSecond(timestamp))
  }

  /** `cleanupOldRates()` at time `now`: drops the snapshots older than one
      day before now. */
  function CleanupOldRates(table: ExchangeRateDao.Table, now: LocalDateTime): (r: (ExchangeRateDao.Table, int))
    ensures forall x :: x in r.0 <==> x in table && x.timestamp >= now.epochSecond - SecondsPerDay
    ensures |table| == |r.0| + r.1
  {
    DeleteOldRates(table, MinusDays(now, 1))
  }
}
