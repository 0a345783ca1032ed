/** The update throttle (viewmodels/UpdateManager.kt): a persisted time of
    the last completed check, a one-hour gate that answers with an error, a
    one-day gate that answers "no update", a `forceCheck` bypass, and a rule
    that a rate-limited answer does not count as a completed check. Times
    are milliseconds since the epoch. */
module UpdateManager {
  import opened Wrappers
  import opened Text
  import opened UpdateModel
  import UpdateService

  const UpdateCheckInterval: int := 24 * 60 * 60 * 1000
  const RateLimitInterval: int := 60 * 60 * 1000
  const RateLimitProtection: string := "Rate limit protection: Please wait before checking again"
  const DefaultVersionCode: UpdateService.Int32 := 1

  /** The stored "last_update_check" preference; `None` before the first
      completed check. */
  type Store = Option<int>

  /** `getLastUpdateCheckTime`: a missing preference reads as 0. */
  function LastCheckTime(store: Store): (t: int)
    ensures store.Some? ==> t == store.value
    ensures store.None? ==> t == 0
  {
    store.GetOr(0)
  }

  /** `getCurrentVersionCode`: the installed package's version code, 1 when
      the package lookup fails (`None`). */
  function CurrentVersionCode(lookup: Option<UpdateService.Int32>): (v: UpdateService.Int32)
    ensures lookup.Some? ==> v == lookup.value
    ensures lookup.None? ==> v == DefaultVersionCode
  {
    lookup.GetOr(DefaultVersionCode)
  }

  /** A result the service attributes to the rate limit of the feed. */
  predicate RateLimited(r: UpdateCheckResponse) {
    r.error.Some? && Contains(r.error.value, "Rate limit")
  }

  /** The answer of one call, the store afterwards, and whether the release
      feed was queried. */
  datatype CheckOutcome = CheckOutcome(response: UpdateCheckResponse, store: Store, queried: bool)

  /** `checkForUpdates(forceCheck)` at time `now`. The release feed would
      answer `feed`; `lookup` is the package lookup and `formatDate` the
      release-date formatter handed to the service. */
  function CheckForUpdates(
    store: Store, forceCheck: bool, now: int,
    lookup: Option<UpdateService.Int32>, feed: UpdateService.FeedResponse, formatDate: string -> string
  ): (o: CheckOutcome)
    ensures WellFormed(o.response)
    ensures o.queried <==> forceCheck || now - LastCheckTime(store) >= UpdateCheckInterval
    ensures !forceCheck && now - LastCheckTime(store) < RateLimitInterval ==>
      o == CheckOutcome(Failed(RateLimitProtection), store, false)
    ensures !forceCheck && RateLimitInterval <= now - LastCheckTime(store) < UpdateCheckInterval ==>
      o == CheckOutcome(NoUpdate(), store, false)
    ensures o.queried ==> o.response == UpdateService.CheckForUpdates(feed, CurrentVersionCode(lookup), formatDate)
    ensures o.queried && !RateLimited(o.response) ==> o.store == Some(now)
    ensures !(o.queried && !RateLimited(o.response)) ==> o.store == store
  {
    var elapsed := now - LastCheckTime(store);
    if !forceCheck && elapsed < RateLimitInterval then
      CheckOutcome(Failed(RateLimitProtection), store, false)
    else if !forceCheck && elapsed < UpdateCheckInterval then
      CheckOutcome(NoUpdate(), store, false)
    else
      var result := UpdateService.CheckForUpdates(feed, CurrentVersionCode(lookup), formatDate);
      var store' := if RateLimited(result) then store else Some(now);
      CheckOutcome(result, store', true)
  }

  /** A 403 from the feed never advances the throttle. */
  lemma ForbiddenDoesNotAdvance(
    store: Store, forceCheck: bool, now: int,
    lookup: Option<UpdateService.Int32>, feed: UpdateService.FeedResponse, formatDate: string -> string)
    requires feed.Answered? && feed.code == UpdateService.HttpForbidden
    ensures CheckForUpdates(store, forceCheck, now, lookup, feed, formatDate).store == store
  {
    var r := UpdateService.CheckForUpdates(feed, CurrentVersionCode(lookup), formatDate);
    assert StartsWith(r.error.value, "Rate limit");
    StartsWithContains(r.error.value, "Rate limit");
  }

  /** A completed check without error stamps the store with its time. */
  lemma CleanAnswerAdvances(
    store: Store, forceCheck: bool, now: int,
    lookup: Option<UpdateService.Int32>, feed: UpdateService.FeedResponse, formatDate: string -> string)
    requires forceCheck || now - LastCheckTime(store) >= UpdateCheckInterval
    ensures UpdateService.CheckForUpdates(feed, CurrentVersionCode(lookup), formatDate).error.None? ==>
      CheckForUpdates(store, forceCheck, now, lookup, feed, formatDate).store == Some(now)
  {
  }

  /** Two unforced calls less than an hour apart, the first of which reached
      the feed and was not rate limited, query the feed at most once: the
      second is answered by the throttle. */
  lemma AtMostOneQueryPerHour(
    store: Store, t1: int, t2: int,
    lookup: Option<UpdateService.Int32>, feed1: UpdateService.FeedResponse, feed2: UpdateService.FeedResponse,
    formatDate: string -> string)
    requires t2 - t1 < RateLimitInterval
    requires CheckForUpdates(store, false, t1, lookup, feed1, formatDate).queried
    requires !RateLimited(CheckForUpdates(store, false, t1, lookup, feed1, formatDate).response)
    ensures !CheckForUpdates(CheckForUpdates(store, false, t1, lookup, feed1, formatDate).store, false, t2, lookup, feed2, formatDate).queried
    ensures CheckForUpdates(CheckForUpdates(store, false, t1, lookup, feed1, formatDate).store, false, t2, lookup, feed2, formatDate).response
      == Failed(RateLimitProtection)
  {
    var first := CheckForUpdates(store, false, t1, lookup, feed1, formatDate);
    assert LastCheckTime(first.store) == t1;
  }

  /** Before the first completed check the stored time is 0, so an unforced
      call at any time from one day after the epoch on reaches the feed. */
  lemma FirstCheckReachesFeed(now: int, lookup: Option<UpdateService.Int32>, feed: UpdateService.FeedResponse, formatDate: string -> string)
    requires now >= UpdateCheckInterval
    ensures CheckForUpdates(None, false, now, lookup, feed, formatDate).queried
  {
  }

  /** When the installed package cannot be looked up the app compares
      against version code 1, so a forced check announces every readable
      release whose version code is above 1. */
  lemma UnknownPackageAnnouncesLaterRelease(
    store: Store, now: int, release: UpdateService.Release, resetClock: Option<string>, formatDate: string -> string)
    ensures UpdateService.ExtractReleaseNotes(release.body).Success? ==>
      (CheckForUpdates(store, true, now, None,
         UpdateService.Answered(UpdateService.HttpOk, Success(release), resetClock), formatDate).response.hasUpdate
       <==> UpdateService.ExtractVersionCode(release.body) > 1)
  {
  }
}
