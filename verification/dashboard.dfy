/** The update scheduling of the dashboard screen (composables/Dashboard.kt):
    a check interval that backs off 30 s, 1 min, 2 min, 5 min, 10 min while
    no update turns up and drops back to 30 s on activity, a ten-second gate
    between checks, a battery and network predicate, and the short message
    the screen shows after a check it was asked for explicitly. The screen
    is a record stepped by events; timers and composition are the events'
    order. */
module Dashboard {
  import opened Wrappers
  import opened Text
  import opened UpdateModel
  import UpdateService
  import UpdateManager
  import DashboardViewModel

  const InitialInterval: int := 30
  const MaxInterval: int := 600
  const MinGap: int := 10_000

  const CheckingMessage: string := "Checking for updates..."
  const FoundMessage: string := "Update found!"
  const UpToDateMessage: string := "You're up to date!"
  const ErrorMessagePrefix: string := "Error: "
  const CheckedRecentlyMessage: string := "Checked recently"
  const DebugCheckingMessage: string := "DEBUG: Checking for updates..."
  const DebugFoundMessage: string := "DEBUG: Update found!"
  const DebugUpToDateMessage: string := "DEBUG: You're up to date!"
  const DebugErrorPrefix: string := "DEBUG: Error - "

  // ---------------------------------------------------------------------------
  // Back-off
  // ---------------------------------------------------------------------------

  /** The intervals the screen can be in, in seconds. */
  predicate ValidInterval(i: int) {
    i == 30 || i == 60 || i == 120 || i == 300 || i == 600
  }

  /** The back-off step after a check that found no update. */
  function NextInterval(i: int): (r: int)
    ensures ValidInterval(r)
    ensures ValidInterval(i) && i < MaxInterval ==> r > i
    ensures r == MaxInterval <==> !(i == 30 || i == 60 || i == 120)
  {
    match i
    case 30 => 60
    case 60 => 120
    case 120 => 300
    case 300 => 600
    case _ => 600
  }

  /** `n` back-off steps from `i`. */
  function Backoff(i: int, n: nat): (r: int)
    ensures n > 0 ==> ValidInterval(r)
  {
    if n == 0 then i else NextInterval(Backoff(i, n - 1))
  }

  /** Ten minutes is the ceiling: once there, the interval stays. */
  lemma MaxIsFixedPoint(n: nat)
    ensures Backoff(MaxInterval, n) == MaxInterval
  {
  }

  /** From 30 s, exactly four checks without an update reach the ceiling. */
  lemma FourStepsToMax()
    ensures Backoff(InitialInterval, 4) == MaxInterval
    ensures forall n :: 0 <= n < 4 ==> Backoff(InitialInterval, n) < MaxInterval
  {
    assert Backoff(InitialInterval, 1) == 60;
    assert Backoff(InitialInterval, 2) == 120;
    assert Backoff(InitialInterval, 3) == 300;
  }

  // ---------------------------------------------------------------------------
  // Device conditions
  // ---------------------------------------------------------------------------

  /** What the battery and connectivity services report. */
  datatype DeviceState = DeviceState(batteryLevel: int, isCharging: bool, isWifi: bool, isUnmetered: bool)

  /** `shouldCheckForUpdates(forceCheck)`. `device` is `None` when reading
      the services throws. */
  function ShouldCheckForUpdates(forceCheck: bool, device: Option<DeviceState>, checkInterval: int): (r: bool)
    ensures forceCheck || device.None? ==> r
    ensures !forceCheck && device.Some? ==>
      (r <==> && !(device.value.batteryLevel < 15 && !device.value.isCharging)
              && !(device.value.batteryLevel < 30 && !device.value.isCharging && !device.value.isWifi)
              && !(!device.value.isUnmetered && checkInterval < 120))
  {
    if forceCheck then true
    else match device
      case None => true
      case Some(d) =>
        if d.batteryLevel < 15 && !d.isCharging then false
        else if d.batteryLevel < 30 && !d.isCharging && !d.isWifi then false
        else if !d.isUnmetered && checkInterval < 120 then false
        else true
  }

  /** Charging lifts both battery rules; only the metered-network rule can
      still hold an unforced check back. */
  lemma ChargingOnlyMeteredMatters(device: DeviceState, checkInterval: int)
    requires device.isCharging
    ensures ShouldCheckForUpdates(false, Some(device), checkInterval) <==> device.isUnmetered || checkInterval >= 120
  {
  }

  // ---------------------------------------------------------------------------
  // The screen
  // ---------------------------------------------------------------------------

  datatype Screen = Screen(
    checkInterval: int,
    lastUpdateCheck: int,
    refreshMessage: Option<string>,
    showUpdateDialog: bool,
    updateInfo: Option<UpdateInfo>,
    pendingChecks: seq<bool>)

  const Initial: Screen := Screen(InitialInterval, 0, None, false, None, [])

  /** The dialog is on screen. */
  predicate DialogVisible(s: Screen) {
    s.showUpdateDialog && s.updateInfo.Some?
  }

  /** `checkForUpdate(forceCheck)` at time `now`: whether the check goes
      ahead, in which case the time is recorded and the check is pending
      (with its `forceCheck`) until its answer arrives. */
  function BeginCheck(s: Screen, forceCheck: bool, now: int, device: Option<DeviceState>): (r: (Screen, bool))
    ensures r.1 <==> forceCheck || (now - s.lastUpdateCheck > MinGap && ShouldCheckForUpdates(false, device, s.checkInterval))
    ensures r.1 ==> r.0.lastUpdateCheck == now && r.0.pendingChecks == s.pendingChecks + [forceCheck]
    ensures r.1 && forceCheck ==> r.0.refreshMessage == Some(CheckingMessage)
    ensures !r.1 ==> r.0 == s
    ensures r.0.checkInterval == s.checkInterval
  {
    if forceCheck || (now - s.lastUpdateCheck > MinGap && ShouldCheckForUpdates(forceCheck, device, s.checkInterval)) then
      var message := if forceCheck then Some(CheckingMessage) else s.refreshMessage;
      (s.(lastUpdateCheck := now, refreshMessage := message, pendingChecks := s.pendingChecks + [forceCheck]), true)
    else if forceCheck then
      (s.(refreshMessage := Some(CheckedRecentlyMessage)), false)
    else (s, false)
  }

  /** The "Checked recently" branch is dead: a forced check always passes
      the gate, so no call ever shows that message. */
  lemma CheckedRecentlyUnreachable(s: Screen, forceCheck: bool, now: int, device: Option<DeviceState>)
    ensures forceCheck ==> BeginCheck(s, forceCheck, now, device).1
    ensures BeginCheck(s, forceCheck, now, device).0.refreshMessage == Some(CheckedRecentlyMessage) ==>
      s.refreshMessage == Some(CheckedRecentlyMessage)
  {
  }

  /** The message after a forced check. */
  function ForcedCheckMessage(update: UpdateCheckResponse): (m: string)
    ensures update.hasUpdate && update.updateInfo.Some? ==> m == FoundMessage
    ensures !(update.hasUpdate && update.updateInfo.Some?) && update.error.Some? ==> m == ErrorMessagePrefix + update.error.value
    ensures !(update.hasUpdate && update.updateInfo.Some?) && update.error.None? ==> m == UpToDateMessage
  {
    if update.hasUpdate && update.updateInfo.Some? then FoundMessage
    else if update.error.Some? then ErrorMessagePrefix + update.error.value
    else UpToDateMessage
  }

  /** On a well-formed answer the forced-check message tells the three
      outcomes apart: "Update found!" exactly when an update is announced,
      and a message starting with "Error: " exactly when the check failed. */
  lemma ForcedMessageClassifiesAnswer(update: UpdateCheckResponse)
    requires WellFormed(update)
    ensures ForcedCheckMessage(update) == FoundMessage <==> update.hasUpdate
    ensures StartsWith(ForcedCheckMessage(update), ErrorMessagePrefix) <==> update.error.Some?
  {
    var m := ForcedCheckMessage(update);
    if !update.hasUpdate {
      assert m[0] != FoundMessage[0];
    }
    if update.error.None? {
      assert m[0] != ErrorMessagePrefix[0];
    }
  }

  /** The answer to the oldest pending check: an update opens the dialog
      and resets the interval, anything else backs off. A forced check also
      sets its message. */
  function OnCheckAnswered(s: Screen, update: UpdateCheckResponse): (r: Screen)
    requires |s.pendingChecks| > 0
    ensures r.pendingChecks == s.pendingChecks[1..]
    ensures update.hasUpdate && update.updateInfo.Some? ==>
      r.checkInterval == InitialInterval && DialogVisible(r) && r.updateInfo == update.updateInfo
    ensures !(update.hasUpdate && update.updateInfo.Some?) ==>
      r.checkInterval == NextInterval(s.checkInterval) && r.showUpdateDialog == s.showUpdateDialog && r.updateInfo == s.updateInfo
    ensures s.pendingChecks[0] ==> r.refreshMessage == Some(ForcedCheckMessage(update))
    ensures !s.pendingChecks[0] ==> r.refreshMessage == s.refreshMessage
    ensures r.lastUpdateCheck == s.lastUpdateCheck
  {
    var forceCheck := s.pendingChecks[0];
    var s' := s.(pendingChecks := s.pendingChecks[1..]);
    var message := if forceCheck then Some(ForcedCheckMessage(update)) else s.refreshMessage;
    if update.hasUpdate && update.updateInfo.Some? then
      s'.(updateInfo := update.updateInfo, showUpdateDialog := true, checkInterval := InitialInterval, refreshMessage := message)
    else
      s'.(checkInterval := NextInterval(s.checkInterval), refreshMessage := message)
  }

  /** The debug check: bypasses every condition and does not touch the
      interval. */
  function OnDebugCheckAnswered(s: Screen, update: UpdateCheckResponse): (r: Screen)
    ensures r.checkInterval == s.checkInterval
    ensures update.hasUpdate && update.updateInfo.Some? ==>
      DialogVisible(r) && r.updateInfo == update.updateInfo && r.refreshMessage == Some(DebugFoundMessage)
    ensures !(update.hasUpdate && update.updateInfo.Some?) && update.error.Some? ==>
      r.refreshMessage == Some(DebugErrorPrefix + update.error.value) && r.updateInfo == s.updateInfo
    ensures !(update.hasUpdate && update.updateInfo.Some?) && update.error.None? ==>
      r.refreshMessage == Some(DebugUpToDateMessage) && r.updateInfo == s.updateInfo
    ensures update.hasUpdate && update.updateInfo.Some? ==>
      r == s.(updateInfo := r.updateInfo, showUpdateDialog := true, refreshMessage := r.refreshMessage)
    ensures !(update.hasUpdate && update.updateInfo.Some?) ==> r == s.(refreshMessage := r.refreshMessage)
  {
    if update.hasUpdate && update.updateInfo.Some? then
      s.(updateInfo := update.updateInfo, showUpdateDialog := true, refreshMessage := Some(DebugFoundMessage))
    else if update.error.Some? then s.(refreshMessage := Some(DebugErrorPrefix + update.error.value))
    else s.(refreshMessage := Some(DebugUpToDateMessage))
  }

  /** The query behind every check the screen starts. Both the gated
      check and the debug check call `forceUpdateCheck` (Dashboard.kt lines
      101 and 157), so whatever `forceCheck` the screen gated with, the view
      model runs the manager's check forced. */
  function ScreenQuery(
    thrown: Option<Option<string>>, store: UpdateManager.Store, now: int,
    lookup: Option<UpdateService.Int32>, feed: UpdateService.FeedResponse, formatDate: string -> string
  ): (o: UpdateManager.CheckOutcome)
    ensures WellFormed(o.response)
    ensures thrown.None? ==>
      o.queried && o.response == UpdateService.CheckForUpdates(feed, UpdateManager.CurrentVersionCode(lookup), formatDate)
    ensures thrown.Some? ==>
      !o.queried && o.store == store && !o.response.hasUpdate && o.response.error == thrown.value
  {
    DashboardViewModel.RunCheck(true, thrown, store, now, lookup, feed, formatDate)
  }

  /** An unforced check the screen lets through is queued as unforced but
      still reaches the feed, even inside the manager's one-hour rate limit,
      where the manager's own unforced check would have answered with the
      rate-limit error. */
  lemma UnforcedScreenCheckStillQueriesFeed(
    s: Screen, now: int, device: Option<DeviceState>, store: UpdateManager.Store,
    lookup: Option<UpdateService.Int32>, feed: UpdateService.FeedResponse, formatDate: string -> string)
    requires BeginCheck(s, false, now, device).1
    ensures BeginCheck(s, false, now, device).0.pendingChecks == s.pendingChecks + [false]
    ensures ScreenQuery(None, store, now, lookup, feed, formatDate).queried
    ensures now - UpdateManager.LastCheckTime(store) < UpdateManager.RateLimitInterval ==>
      UpdateManager.CheckForUpdates(store, false, now, lookup, feed, formatDate).response
        == Failed(UpdateManager.RateLimitProtection)
  {
  }

  /** An exception without a message reads as "You're up to date!" on the
      screen: the answer carries neither an update nor an error. */
  lemma NullMessageReadsUpToDate(
    store: UpdateManager.Store, now: int,
    lookup: Option<UpdateService.Int32>, feed: UpdateService.FeedResponse, formatDate: string -> string)
    ensures ForcedCheckMessage(ScreenQuery(Some(None), store, now, lookup, feed, formatDate).response) == UpToDateMessage
  {
  }

  /** What can happen to the screen. */
  datatype Event =
    | CheckRequested(forceCheck: bool, now: int, device: Option<DeviceState>)
    | CheckAnswered(update: UpdateCheckResponse)
    | DebugCheckRequested
    | DebugCheckAnswered(update: UpdateCheckResponse)
    | ConversionResultChanged(result: string, now: int, device: Option<DeviceState>)
    | ThemeToggled
    | MessageCleared
    | DialogDismissed

  /** One event. A changed conversion result other than "0.00" resets the
      interval and asks for an unforced check; a theme change resets the
      interval. An answer with no check pending is ignored. */
  function Step(s: Screen, e: Event): (r: Screen)
    ensures ValidInterval(s.checkInterval) ==> ValidInterval(r.checkInterval)
  {
    match e
    case CheckRequested(forceCheck, now, device) => BeginCheck(s, forceCheck, now, device).0
    case CheckAnswered(update) => if |s.pendingChecks| > 0 then OnCheckAnswered(s, update) else s
    case DebugCheckRequested => s.(refreshMessage := Some(DebugCheckingMessage))
    case DebugCheckAnswered(update) => OnDebugCheckAnswered(s, update)
    case ConversionResultChanged(result, now, device) =>
      if result != "0.00" then BeginCheck(s.(checkInterval := InitialInterval), false, now, device).0 else s
    case ThemeToggled => s.(checkInterval := InitialInterval)
    case MessageCleared => s.(refreshMessage := None)
    case DialogDismissed => s.(showUpdateDialog := false)
  }

  function Run(s: Screen, events: seq<Event>): Screen
    decreases |events|
  {
    if |events| == 0 then s else Run(Step(s, events[0]), events[1..])
  }

  /** Whatever happens, the interval is one of the five back-off values. */
  lemma {:induction false} IntervalAlwaysValid(s: Screen, events: seq<Event>)
    requires ValidInterval(s.checkInterval)
    ensures ValidInterval(Run(s, events).checkInterval)
    decreases |events|
  {
    if |events| > 0 {
      IntervalAlwaysValid(Step(s, events[0]), events[1..]);
    }
  }

  /** The dialog opens with an answer exactly when the answer announces an
      update with details; a well-formed answer announces one exactly when
      it says so. */
  lemma DialogOpensIffUpdate(s: Screen, update: UpdateCheckResponse)
    requires |s.pendingChecks| > 0 && !DialogVisible(s) && WellFormed(update)
    ensures DialogVisible(OnCheckAnswered(s, update)) <==> update.hasUpdate
  {
  }
}
