/** The `java.time` arithmetic the currency cache and the conversion history
    rely on: a `LocalDateTime` read in UTC as seconds and nanoseconds since
    the epoch, `ChronoUnit.HOURS.between`, `minus(1, DAYS)`, and the
    epoch-second conversions in both directions. */
module DateTime {
  import Arith

  const NanosPerSecond: int := 1_000_000_000
  const SecondsPerHour: int := 3600
  const SecondsPerDay: int := 86400
  const NanosPerHour: int := SecondsPerHour * NanosPerSecond

  type Nano = n: int | 0 <= n < 1_000_000_000

  /** A local date-time, placed on the UTC time line. */
  datatype LocalDateTime = LocalDateTime(epochSecond: int, nano: Nano)

  /** Nanoseconds since the epoch. */
  function Nanos(t: LocalDateTime): int {
    t.epochSecond * NanosPerSecond + t.nano
  }

  /** Integer division rounding toward zero, as on the JVM. */
  function TruncDiv(a: int, b: int): (q: int)
    requires b > 0
    ensures a >= 0 ==> 0 <= q && q * b <= a < (q + 1) * b
    ensures a < 0 ==> q <= 0 && (q - 1) * b < a <= q * b
  {
    if a >= 0 then
      Arith.DivBounds(a, b);
      a / b
    else
      var n := -a;
      Arith.DivBounds(n, b);
      assert -(n / b) * b == -((n / b) * b);
      assert (-(n / b) - 1) * b == -((n / b + 1) * b);
      -(n / b)
  }


  /** `ChronoUnit.HOURS.between(from, to)`: the number of whole hours from
      `from` to `to`, negative when `to` is earlier. */
  function HoursBetween(from: LocalDateTime, to: LocalDateTime): int {
    TruncDiv(Nanos(to) - Nanos(from), NanosPerHour)
  }

  /** Fewer than one whole hour lies between the two instants exactly when
      the second is less than an hour after the first; every instant before
      the first qualifies. */
  lemma LessThanOneHourIff(from: LocalDateTime, to: LocalDateTime)
    ensures HoursBetween(from, to) < 1 <==> Nanos(to) - Nanos(from) < NanosPerHour
  {
  }

  /** `toEpochSecond(ZoneOffset.UTC)`: the nanoseconds are dropped. */
  function ToEpochSecond(t: LocalDateTime): (s: int)
    ensures s * NanosPerSecond <= Nanos(t) < (s + 1) * NanosPerSecond
  {
    t.epochSecond
  }

  /** `LocalDateTime.ofEpochSecond(s, 0, ZoneOffset.UTC)`. */
  function OfEpochSecond(s: int): (t: LocalDateTime)
    ensures Nanos(t) == s * NanosPerSecond
  {
    LocalDateTime(s, 0)
  }

  /** `minus(days, ChronoUnit.DAYS)`: the same time of day, `days` days
      earlier. */
  function MinusDays(t: LocalDateTime, days: int): (r: LocalDateTime)
    ensures Nanos(t) - Nanos(r) == days * SecondsPerDay * NanosPerSecond
    ensures r.nano == t.nano
  {
    LocalDateTime(t.epochSecond - days * SecondsPerDay, t.nano)
  }

  /** Epoch seconds survive the round trip exactly. */
  lemma EpochSecondRoundTrip(s: int)
    ensures ToEpochSecond(OfEpochSecond(s)) == s
  {
  }

  /** A date-time survives the round trip truncated to its second. */
  lemma DateTimeRoundTrip(t: LocalDateTime)
    ensures OfEpochSecond(ToEpochSecond(t)).nano == 0
    ensures 0 <= Nanos(t) - Nanos(OfEpochSecond(ToEpochSecond(t))) < NanosPerSecond
    ensures t.nano == 0 ==> OfEpochSecond(ToEpochSecond(t)) == t
  {
  }
}
