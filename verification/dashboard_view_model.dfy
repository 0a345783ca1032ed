/** The dashboard's view model (viewmodels/DashboardViewModel.kt): an
    immutable screen state replaced by each user action, the two-phase
    conversion (validate and start loading, then apply the repository's
    answer), the mapping between history rows and the records the screen
    lists, and the two entry points of the update check. Parsing the typed
    amount and rendering a number with two decimals are parameters. */
module DashboardViewModel {
  import opened Wrappers
  import opened DateTime
  import opened Entities
  import opened UpdateModel
  import UpdateService
  import UpdateManager

  /** A conversion as the screen lists it. */
  datatype ConversionRecord = ConversionRecord(
    fromCurrency: string,
    toCurrency: string,
    amount: real,
    result: real,
    timestamp: LocalDateTime)

  datatype DashboardState = DashboardState(
    amount: string,
    fromCurrency: string,
    toCurrency: string,
    result: string,
    isLoading: bool,
    error: Option<string>,
    conversionHistory: seq<ConversionRecord>)

  /** What the repository answers a conversion with. */
  datatype ExchangeRateResult = RatesFound(rates: map<string, real>) | RatesError(message: string)

  const InvalidAmount: string := "Please enter a valid amount"
  const ConvertFailurePrefix: string := "Failed to convert currency: "

  /** The state before any action. */
  const Initial: DashboardState := DashboardState("", "USD", "EUR", "0.00", false, None, [])

  lemma InitialState()
    ensures Initial.amount == "" && Initial.result == "0.00"
    ensures Initial.fromCurrency == "USD" && Initial.toCurrency == "EUR"
    ensures !Initial.isLoading && Initial.error.None? && |Initial.conversionHistory| == 0
  {
  }

  // ---------------------------------------------------------------------------
  // Field updates
  // ---------------------------------------------------------------------------

  /** `updateAmount`: sets the amount, nothing else. */
  function UpdateAmount(s: DashboardState, amount: string): (r: DashboardState)
    ensures r.amount == amount && r.(amount := s.amount) == s
  {
    s.(amount := amount)
  }

  /** `updateFromCurrency`: sets the source currency, nothing else. */
  function UpdateFromCurrency(s: DashboardState, currency: string): (r: DashboardState)
    ensures r.fromCurrency == currency && r.(fromCurrency := s.fromCurrency) == s
  {
    s.(fromCurrency := currency)
  }

  /** `updateToCurrency`: sets the target currency, nothing else. */
  function UpdateToCurrency(s: DashboardState, currency: string): (r: DashboardState)
    ensures r.toCurrency == currency && r.(toCurrency := s.toCurrency) == s
  {
    s.(toCurrency := currency)
  }

  /** `swapCurrencies`: exchanges the two currencies, nothing else. */
  function SwapCurrencies(s: DashboardState): (r: DashboardState)
    ensures r.fromCurrency == s.toCurrency && r.toCurrency == s.fromCurrency
    ensures r.(fromCurrency := s.fromCurrency, toCurrency := s.toCurrency) == s
  {
    s.(fromCurrency := s.toCurrency, toCurrency := s.fromCurrency)
  }

  /** `clearError`: removes the error, nothing else. */
  function ClearError(s: DashboardState): (r: DashboardState)
    ensures r.error.None? && r.(error := s.error) == s
  {
    s.(error := None)
  }

  /** Swapping twice restores the state. */
  lemma SwapInvolution(s: DashboardState)
    ensures SwapCurrencies(SwapCurrencies(s)) == s
  {
  }

  /** Choosing USD then EUR and swapping yields EUR to USD. */
  lemma SwapExample(s: DashboardState)
    ensures var r := SwapCurrencies(UpdateToCurrency(UpdateFromCurrency(s, "USD"), "EUR"));
            r.fromCurrency == "EUR" && r.toCurrency == "USD"
  {
  }

  /** Updates of different fields commute. */
  lemma UpdatesCommute(s: DashboardState, amount: string, from: string, to: string)
    ensures UpdateAmount(UpdateFromCurrency(s, from), amount) == UpdateFromCurrency(UpdateAmount(s, amount), from)
    ensures UpdateAmount(UpdateToCurrency(s, to), amount) == UpdateToCurrency(UpdateAmount(s, amount), to)
  {
  }

  // ---------------------------------------------------------------------------
  // Conversion
  // ---------------------------------------------------------------------------

  /** The synchronous half of `convertCurrency`: an amount `parse` rejects
      sets the error and stops; otherwise loading starts with no error and
      the parsed amount goes to the repository. */
  function BeginConvert(s: DashboardState, parse: string -> Option<real>): (r: (DashboardState, Option<real>))
    ensures parse(s.amount).None? ==> r.1.None? && r.0 == s.(error := Some(InvalidAmount))
    ensures parse(s.amount).Some? ==> r.1 == parse(s.amount)
    ensures parse(s.amount).Some? ==> r.0.isLoading && r.0.error.None?
    ensures parse(s.amount).Some? ==> r.0.(isLoading := s.isLoading, error := s.error) == s
  {
    match parse(s.amount)
    case None => (s.(error := Some(InvalidAmount)), None)
    case Some(amount) => (s.(isLoading := true, error := None), Some(amount))
  }

  /** `result / amount`, with 0 for a zero amount. */
  function Ratio(result: real, amount: real): real {
    if amount == 0.0 then 0.0 else result / amount
  }

  /** The asynchronous half of `convertCurrency`: the repository's answer
      for `amount` (an exception appears as `Failure`), applied to the state
      `s` current at that moment. A success builds the history row for the
      rate found for the target currency (0 when missing) and hands it to
      the repository, whose write fails with message `insertFailure` or goes
      through; once it has gone through the screen shows the rate rendered
      by `format`, and the row stored is returned. The result and the row
      hold the rate itself, not the converted amount. Every error keeps the
      previous result. */
  function FinishConvert(
    s: DashboardState, amount: real, answer: Result<ExchangeRateResult, string>,
    now: LocalDateTime, insertFailure: Option<string>, format: real -> string
  ): (r: (DashboardState, Option<ConversionHistory>))
    ensures !r.0.isLoading
    ensures r.0.amount == s.amount && r.0.fromCurrency == s.fromCurrency && r.0.toCurrency == s.toCurrency
    ensures r.0.conversionHistory == s.conversionHistory
    ensures answer.Success? && answer.value.RatesFound? && insertFailure.None? ==>
      var value := if s.toCurrency in answer.value.rates then answer.value.rates[s.toCurrency] else 0.0;
      && r.0.result == format(value) && r.0.error == s.error
      && r.1.Some? && ToConversionRecord(r.1.value) == RecordedAt(s, amount, value, now)
    ensures answer.Success? && answer.value.RatesFound? && insertFailure.Some? ==>
      r.1.None? && r.0.result == s.result && r.0.error == Some(ConvertFailurePrefix + insertFailure.value)
    ensures answer.Success? && answer.value.RatesError? ==>
      r.1.None? && r.0.result == s.result && r.0.error == Some(answer.value.message)
    ensures answer.Failure? ==>
      r.1.None? && r.0.result == s.result && r.0.error == Some(ConvertFailurePrefix + answer.error)
  {
    match answer
    case Failure(message) => (s.(error := Some(ConvertFailurePrefix + message), isLoading := false), None)
    case Success(RatesError(message)) => (s.(error := Some(message), isLoading := false), None)
    case Success(RatesFound(rates)) =>
      var value := if s.toCurrency in rates then rates[s.toCurrency] else 0.0;
      var record := ConversionRecord(s.fromCurrency, s.toCurrency, amount, value, now);
      match insertFailure
      case Some(message) => (s.(error := Some(ConvertFailurePrefix + message), isLoading := false), None)
      case None =>
        RecordRoundTrip(record);
        (s.(result := format(value), isLoading := false), Some(ToConversionHistory(record)))
  }

  /** The shown result changes only together with a stored history row:
      a conversion either shows its rate and stores exactly one row for it,
      or keeps the previous result, stores nothing and reports an error. */
  lemma ResultChangesOnlyWithStoredRow(
    s: DashboardState, amount: real, answer: Result<ExchangeRateResult, string>,
    now: LocalDateTime, insertFailure: Option<string>, format: real -> string)
    ensures var r := FinishConvert(s, amount, answer, now, insertFailure, format);
            r.1.Some? <==> answer.Success? && answer.value.RatesFound? && insertFailure.None?
    ensures var r := FinishConvert(s, amount, answer, now, insertFailure, format);
            r.1.None? ==> r.0.result == s.result && r.0.error.Some?
    ensures var r := FinishConvert(s, amount, answer, now, insertFailure, format);
            r.1.Some? ==> r.0.result == format(r.1.value.convertedAmount) && r.1.value.amount == amount
  {
  }

  /** The record a conversion finished in state `s` lists, as read back from
      its history row: stamped to the second. */
  function RecordedAt(s: DashboardState, amount: real, value: real, now: LocalDateTime): ConversionRecord {
    ConversionRecord(s.fromCurrency, s.toCurrency, amount, value, OfEpochSecond(ToEpochSecond(now)))
  }

  /** Entering "100", choosing USD to EUR and receiving a rate of 85 for EUR
      shows "85.00" with no error. */
  lemma ConvertExample(s: DashboardState, parse: string -> Option<real>, format: real -> string, now: LocalDateTime)
    requires parse("100") == Some(100.0) && format(85.0) == "85.00"
    ensures var typed := UpdateToCurrency(UpdateFromCurrency(UpdateAmount(s, "100"), "USD"), "EUR");
            var started := BeginConvert(typed, parse);
            var finished := FinishConvert(started.0, started.1.value, Success(RatesFound(map["EUR" := 85.0])), now, None, format);
            finished.0.result == "85.00" && finished.0.error.None? && !finished.0.isLoading
  {
  }

  /** An amount that does not parse ends with the validation error and
      without a repository call. */
  lemma InvalidAmountExample(s: DashboardState, parse: string -> Option<real>)
    requires parse("invalid").None?
    ensures BeginConvert(UpdateAmount(s, "invalid"), parse).0.error == Some(InvalidAmount)
    ensures BeginConvert(UpdateAmount(s, "invalid"), parse).1.None?
  {
  }

  // ---------------------------------------------------------------------------
  // History rows and records
  // ---------------------------------------------------------------------------

  /** `ConversionHistory.toConversionRecord()`. */
  function ToConversionRecord(h: ConversionHistory): (r: ConversionRecord)
    ensures r.fromCurrency == h.fromCurrency && r.toCurrency == h.toCurrency
    ensures r.amount == h.amount && r.result == h.convertedAmount
    ensures ToEpochSecond(r.timestamp) == h.timestamp && r.timestamp.nano == 0
  {
    ConversionRecord(h.fromCurrency, h.toCurrency, h.amount, h.convertedAmount, OfEpochSecond(h.timestamp))
  }

  /** `ConversionRecord.toConversionHistory()`: a row without id whose rate
      is result per unit of amount. */
  function ToConversionHistory(r: ConversionRecord): (h: ConversionHistory)
    ensures h.id == 0
    ensures h.fromCurrency == r.fromCurrency && h.toCurrency == r.toCurrency
    ensures h.amount == r.amount && h.convertedAmount == r.result
    ensures r.amount != 0.0 ==> h.rate * r.amount == r.result
    ensures h.timestamp == ToEpochSecond(r.timestamp)
  {
    ConversionHistory(0, r.fromCurrency, r.toCurrency, r.amount, r.result, Ratio(r.result, r.amount), ToEpochSecond(r.timestamp))
  }

  /** A record survives storage with its timestamp cut to the second. */
  lemma RecordRoundTrip(r: ConversionRecord)
    ensures ToConversionRecord(ToConversionHistory(r)) == r.(timestamp := OfEpochSecond(ToEpochSecond(r.timestamp)))
    ensures r.timestamp.nano == 0 ==> ToConversionRecord(ToConversionHistory(r)) == r
  {
  }

  /** A row without id whose rate is consistent survives the way through
      the screen unchanged. */
  lemma HistoryRoundTrip(h: ConversionHistory)
    requires h.id == 0 && h.rate == Ratio(h.convertedAmount, h.amount)
    ensures ToConversionHistory(ToConversionRecord(h)) == h
  {
  }

  /** The history collector: the rows the repository publishes, as
      records, replace the listed history. */
  function OnHistory(s: DashboardState, rows: seq<ConversionHistory>): (r: DashboardState)
    ensures |r.conversionHistory| == |rows|
    ensures forall k :: 0 <= k < |rows| ==> r.conversionHistory[k] == ToConversionRecord(rows[k])
    ensures r.(conversionHistory := s.conversionHistory) == s
  {
    s.(conversionHistory := seq(|rows|, k requires 0 <= k < |rows| => ToConversionRecord(rows[k])))
  }

  // ---------------------------------------------------------------------------
  // Update checks
  // ---------------------------------------------------------------------------

  /** `checkForUpdates` and `forceUpdateCheck`: the manager's check with the
      given `forceCheck`. An exception escaping the manager (`thrown`, whose
      message may be absent) becomes a no-update answer carrying that
      message, possibly none, and leaves the store alone. */
  function RunCheck(
    forceCheck: bool, thrown: Option<Option<string>>, store: UpdateManager.Store, now: int,
    lookup: Option<UpdateService.Int32>, feed: UpdateService.FeedResponse, formatDate: string -> string
  ): (o: UpdateManager.CheckOutcome)
    ensures WellFormed(o.response)
    ensures thrown.Some? ==>
      o == UpdateManager.CheckOutcome(UpdateCheckResponse(false, None, thrown.value), store, false)
    ensures thrown.None? ==> o == UpdateManager.CheckForUpdates(store, forceCheck, now, lookup, feed, formatDate)
  {
    match thrown
    case Some(message) => UpdateManager.CheckOutcome(UpdateCheckResponse(false, None, message), store, false)
    case None => UpdateManager.CheckForUpdates(store, forceCheck, now, lookup, feed, formatDate)
  }

  /** `forceUpdateCheck` skips both throttle gates: unless the manager
      throws, the release feed is always asked and its answer returned. */
  lemma ForcedCheckBypassesThrottle(
    store: UpdateManager.Store, now: int,
    lookup: Option<UpdateService.Int32>, feed: UpdateService.FeedResponse, formatDate: string -> string)
    ensures RunCheck(true, None, store, now, lookup, feed, formatDate).queried
    ensures RunCheck(true, None, store, now, lookup, feed, formatDate).response
      == UpdateService.CheckForUpdates(feed, UpdateManager.CurrentVersionCode(lookup), formatDate)
  {
  }
}
