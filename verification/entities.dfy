/** The two stored records: a cached exchange-rate snapshot
    (model/ExchangeRateEntity.kt) and a row of the conversion history (the
    `conversion_history` table of database/DatabaseModule.kt). */
module Entities {
  /** One snapshot of rates against `base`, stored under `base` as primary
      key; `timestamp` is in epoch seconds. */
  datatype ExchangeRateEntity = ExchangeRateEntity(base: string, timestamp: int, rates: map<string, real>)

  /** One completed conversion. `id` is the autoincrement primary key, 0
      while unassigned; `timestamp` is in epoch seconds. */
  datatype ConversionHistory = ConversionHistory(
    id: int,
    fromCurrency: string,
    toCurrency: string,
    amount: real,
    convertedAmount: real,
    rate: real,
    timestamp: int)

  function RateTimestamp(e: ExchangeRateEntity): int {
    e.timestamp
  }

  function HistoryTimestamp(h: ConversionHistory): int {
    h.timestamp
  }
}
