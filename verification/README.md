# Kharrency in Dafny

Kharrency is an Android currency converter. It has two parts.

- **Conversion.** Exchange rates are cached in a Room database for an hour. Each conversion is written to a history table.
- **Updates.** The app updates itself from the GitHub releases of its own repository. It polls the release feed with throttling and back-off, parses the release body, downloads the `.apk` with a progress stream, and walks the user through installation in a dialog.

This project models the decision logic of those parts as pure Dafny functions over immutable datatypes and proves what each one promises. Network, disk, Compose and coroutines are abstracted away:

- an HTTP answer is a datatype value;
- a release is a record;
- a download is a sequence of chunk sizes;
- a screen is a record stepped by transition functions;
- a Room table is a sequence of rows.

Module layout (one module per source file or component):

| module | models |
|---|---|
| `Wrappers` | `Option` and `Result` |
| `Text` | the Kotlin string functions the code relies on: `startsWith`, `contains`, `split`, `joinToString`, `trim`, `removePrefix`, integer rendering |
| `Seqs` | `filter`, `indexOfFirst`, a stable descending sort, `take` |
| `Arith` | facts about Euclidean division |
| `DateTime` | the `java.time` arithmetic: epoch seconds, `HOURS.between`, `minus(DAYS)` |
| `FileSize` | `formatFileSize`, which appears identically in three source files |
| `UpdateModel` | `UpdateInfo` and `UpdateCheckResponse` |
| `UpdateService` | release-feed parsing and status mapping |
| `UpdateManager` | the persisted update throttle |
| `Dashboard` | foreground check scheduling and refresh messages |
| `ApkDownloadService` | the download event stream and the install decision |
| `UpdateDialog` | the dialog's download/installation state machine and what it shows |
| `CurrencyRepository` | cache-or-fetch conversion and rate cleanup |
| `DashboardViewModel` | the converter screen state and the record/history mapping |
| `Entities` | the two stored row types |
| `ExchangeRateDao`, `ConversionHistoryDao` | the Room tables |
| `FakeExchangeRateDao`, `FakeConversionHistoryDao` | the in-memory test doubles |

Some source files disagree with each other. Each file is modelled against its own view of its collaborators, not reconciled:

- the view-model expects an `ExchangeRateResult` from the repository;
- the view-model calls `getConversionHistory` and `insertConversionHistory` on the repository, which defines neither; the model takes them to read and write the conversion-history table, a write that can fail with a message;
- the repository's cache carries a `LocalDateTime` timestamp where the entity stores epoch seconds;
- the dialog consumes an installation-result stream that the download service does not define.

## Model

| member | source | states |
|---|---|---|
| UpdateService.CheckForUpdates | repository/src/main/java/com/harry/repository/UpdateService.kt:36-80 | A 200 answer gives the parse result; 403 gives "Rate limit exceeded. Try again at " plus the reset clock or "in a while"; 404 gives "Release not found. Check repository settings"; any other code gives "GitHub API error: HTTP <code>"; a connection failure gives "Network error: <message>"; only a 200 can announce an update; the answer is always well formed (details iff update, no update with an error) |
| UpdateService.ParseUpdateResponse | repository/src/main/java/com/harry/repository/UpdateService.kt:84-139 | An unreadable payload gives "Failed to parse update info: <reason>"; a readable one gives the release's verdict; the answer is well formed |
| UpdateService.ParseRelease | repository/src/main/java/com/harry/repository/UpdateService.kt:88-130 | If the release notes cannot be sliced, the error is "Failed to parse update info: <subList message>". Otherwise there is no error, and an update is announced iff the body's version code exceeds the installed one. The announced info carries: the tag without one leading "v", that version code, the notes, the first `.apk` URL and size, force iff the gap exceeds 3 (for a non-negative installed code), minimum version 1, and the formatted date |
| UpdateService.ExtractVersionCode | repository/src/main/java/com/harry/repository/UpdateService.kt:141-146 | The result always lies in 0..2147483647 |
| UpdateService.VersionCodeWithoutMarker | repository/src/main/java/com/harry/repository/UpdateService.kt:141-146 | A body without "**Version Code:**" yields 1 |
| UpdateService.VersionCodeReadsNumeral | repository/src/main/java/com/harry/repository/UpdateService.kt:141-146 | Take a body in which the pattern matches nowhere before a marker that is followed by optional whitespace and the numeral of n, then a non-digit. It yields n when n fits in an Int, and 1 when it overflows |
| UpdateService.MatchAfterMarker | repository/src/main/java/com/harry/repository/UpdateService.kt:143-145 | At a marker, the regex captures exactly the maximal digit run after the whitespace run |
| UpdateService.ApkDownloadUrl | repository/src/main/java/com/harry/repository/UpdateService.kt:148-158 | The `browser_download_url` of the first asset whose name ends with ".apk", or "" when there is none |
| UpdateService.ApkFileSize | repository/src/main/java/com/harry/repository/UpdateService.kt:193-204 | The formatted size of the first ".apk" asset, or "Unknown" when there is none |
| UpdateService.UrlAndSizeDescribeOneAsset | repository/src/main/java/com/harry/repository/UpdateService.kt:148-204 | The URL and the size always describe one and the same asset, the first installable one; with none they are "" and "Unknown" |
| UpdateService.SectionEnd | repository/src/main/java/com/harry/repository/UpdateService.kt:167-175 | The end of the "What's New" section is the first line at or after its start that begins with "### " or "## ", or the end of the body |
| UpdateService.ReleaseNotesFromWhatsNew | repository/src/main/java/com/harry/repository/UpdateService.kt:160-180 | With a "### What's New:" line, the notes are the trimmed join of the lines strictly after the first such line, up to the next heading line or the end. The header line itself is never included |
| UpdateService.ReleaseNotesFromFeatures | repository/src/main/java/com/harry/repository/UpdateService.kt:183-187 | Without "What's New", and with both markers where Features comes first, the notes run from the Features line (inclusive) to the Technical Details line (exclusive) |
| UpdateService.ReleaseNotesMisorderedFail | repository/src/main/java/com/harry/repository/UpdateService.kt:186-187 | When Technical Details precedes Features, slicing fails with the `subList` message "fromIndex(f) > toIndex(t)" |
| UpdateService.ReleaseNotesBeforeTechnicalDetails | repository/src/main/java/com/harry/repository/UpdateService.kt:188-190 | Without "What's New", and with either marker missing, the notes are the trimmed text before the first "### Technical Details:" |
| UpdateService.SubInt32 | repository/src/main/java/com/harry/repository/UpdateService.kt:226 | Int subtraction agrees with exact subtraction whenever no 32-bit wrap-around occurs |
| UpdateService.ForceUpdateIffGapAboveThree | repository/src/main/java/com/harry/repository/UpdateService.kt:224-227 | For non-negative version codes, a forced update is exactly a gap of four or more |
| FileSize.Format | repository/src/main/java/com/harry/repository/UpdateService.kt:206-212 | At least 1048576 bytes shows the whole number of MiB (at least 1) followed by " MB"; from 1024 it shows whole KiB followed by " KB"; below that it shows the byte count followed by " bytes" |
| FileSize.FormatUnitMatchesThreshold | repository/src/main/java/com/harry/repository/UpdateService.kt:206-212 | The unit shown determines the range: " MB" iff at least 1048576, " KB" iff in 1024..1048575, " bytes" iff below 1024 |
| UpdateManager.FirstCheckReachesFeed | viewmodels/src/main/java/com/harry/viewmodels/UpdateManager.kt:62-66 | With nothing stored the last check reads as time 0, so an unforced check after the first day reaches the feed |
| UpdateManager.UnknownPackageAnnouncesLaterRelease | viewmodels/src/main/java/com/harry/viewmodels/UpdateManager.kt:74-81 | When the package lookup fails the installed version counts as 1, so a forced check announces a readable release iff its version code is above 1 |
| UpdateManager.CheckForUpdates | viewmodels/src/main/java/com/harry/viewmodels/UpdateManager.kt:34-60 | The feed is queried iff the check is forced or at least 24 h have passed. Unforced within 1 h: the "Rate limit protection" error. Unforced within 1–24 h: no update and no error. In both those cases the store is untouched. After a query, the answer is the service's own, and the store becomes now iff that answer is not rate-limited |
| UpdateManager.ForbiddenDoesNotAdvance | viewmodels/src/main/java/com/harry/viewmodels/UpdateManager.kt:54-57 | A 403 from the feed never advances the stored check time |
| UpdateManager.CleanAnswerAdvances | viewmodels/src/main/java/com/harry/viewmodels/UpdateManager.kt:54-57 | A queried check with no error stores the current time |
| UpdateManager.AtMostOneQueryPerHour | viewmodels/src/main/java/com/harry/viewmodels/UpdateManager.kt:38-57 | Two unforced calls less than an hour apart, the first of which reached the feed without being rate-limited, cause one query only; the second gets the protection error |
| Dashboard.NextInterval | composables/src/main/java/com/harry/composables/Dashboard.kt:121-128 | The back-off step always yields an interval from the table, strictly grows below the maximum, and gives 600 exactly for inputs other than 30, 60 and 120 |
| Dashboard.MaxIsFixedPoint | composables/src/main/java/com/harry/composables/Dashboard.kt:127 | 600 stays 600 after any number of steps |
| Dashboard.FourStepsToMax | composables/src/main/java/com/harry/composables/Dashboard.kt:121-128 | From 30, exactly four no-update answers reach 600 |
| Dashboard.ShouldCheckForUpdates | composables/src/main/java/com/harry/composables/Dashboard.kt:62-89 | A forced check or an unreadable device gives true, and otherwise the result is true exactly when none of the three skip rules holds (battery under 15 and not charging; battery under 30, not charging and off Wi-Fi; metered network with an interval under 120) |
| Dashboard.ChargingOnlyMeteredMatters | composables/src/main/java/com/harry/composables/Dashboard.kt:78-83 | While charging, only the metered/interval rule can stop a check |
| Dashboard.BeginCheck | composables/src/main/java/com/harry/composables/Dashboard.kt:92-99 | A check proceeds iff it is forced, or more than 10 s have passed and the device allows it. Proceeding records the time and queues the callback before any answer, and a forced check shows "Checking for updates...". Otherwise nothing changes |
| Dashboard.CheckedRecentlyUnreachable | composables/src/main/java/com/harry/composables/Dashboard.kt:143-150 | A forced check always passes the gate, so no check ever produces the "Checked recently" message |
| Dashboard.ForcedCheckMessage | composables/src/main/java/com/harry/composables/Dashboard.kt:112-134 | "Update found!" when an update with details arrives; else "Error: <e>" when there is an error; else "You're up to date!" |
| Dashboard.ForcedMessageClassifiesAnswer | composables/src/main/java/com/harry/composables/Dashboard.kt:107-134 | For a well-formed answer the message is "Update found!" exactly when an update is announced and starts with "Error: " exactly when the answer carries an error |
| Dashboard.OnCheckAnswered | composables/src/main/java/com/harry/composables/Dashboard.kt:107-141 | An update with details opens the dialog with it and resets the interval to 30, any other answer takes one back-off step and leaves the dialog alone, only a forced check's answer sets the refresh message, the oldest pending check is retired and the time of the last check is kept |
| Dashboard.OnDebugCheckAnswered | composables/src/main/java/com/harry/composables/Dashboard.kt:154-179 | On an update the debug check opens the dialog with it and shows "DEBUG: Update found!", otherwise it shows its own error or up-to-date message, and in both cases it changes nothing else on the screen |
| Dashboard.Step | composables/src/main/java/com/harry/composables/Dashboard.kt:92-228 | Every screen event (tick, resume, conversion result, theme toggle, answer) keeps the interval within the table |
| Dashboard.IntervalAlwaysValid | composables/src/main/java/com/harry/composables/Dashboard.kt:55 | Starting from a table value, the interval stays in {30, 60, 120, 300, 600} through any sequence of events |
| Dashboard.ScreenQuery | composables/src/main/java/com/harry/composables/Dashboard.kt:97-101 | Every check the screen starts reaches the release feed and returns its answer unless the manager throws, in which case the store is untouched and the answer is a no-update answer carrying the thrown message |
| Dashboard.UnforcedScreenCheckStillQueriesFeed | composables/src/main/java/com/harry/composables/Dashboard.kt:97-101 | An unforced check the screen lets through is queued as unforced yet reaches the feed, even within the hour in which the manager's own unforced check answers with the rate-limit error |
| Dashboard.NullMessageReadsUpToDate | composables/src/main/java/com/harry/composables/Dashboard.kt:129-133 | An exception without a message makes a forced check show "You're up to date!" |
| Dashboard.DialogOpensIffUpdate | composables/src/main/java/com/harry/composables/Dashboard.kt:107-110 | From a closed dialog, a well-formed answer opens it iff the answer announces an update |
| ApkDownloadService.PercentageBounded | repository/src/main/java/com/harry/repository/ApkDownloadService.kt:70-74 | While no more bytes have arrived than announced, the percentage lies in 0..100 |
| ApkDownloadService.PercentageMonotonic | repository/src/main/java/com/harry/repository/ApkDownloadService.kt:50-74 | The percentage never goes down as bytes arrive, whatever the announced length (an unknown length gives 0) |
| ApkDownloadService.DownloadApk | repository/src/main/java/com/harry/repository/ApkDownloadService.kt:36-89 | A non-200 answer emits only (0, 0, 0, incomplete, "Download failed: HTTP <code>"), and a failed connection emits only a "Download error: " event. A 200 answer emits one event per chunk carrying the running byte sum, which strictly grows. It ends with either the complete event (sum, total, 100, complete) or a "Download error: " event |
| ApkDownloadService.DownloadEndsOnce | repository/src/main/java/com/harry/repository/ApkDownloadService.kt:36-89 | Every stream ends with exactly one terminal event, complete or error, and no earlier event is terminal |
| ApkDownloadService.ChunkPercentagesProgress | repository/src/main/java/com/harry/repository/ApkDownloadService.kt:62-77 | When the chunks do not exceed the announced length, chunk events' percentages never decrease and stay at most 100 |
| ApkDownloadService.SumPrefixMonotonic | repository/src/main/java/com/harry/repository/ApkDownloadService.kt:67 | The running byte count never decreases |
| ApkDownloadService.InstallApk | repository/src/main/java/com/harry/repository/ApkDownloadService.kt:91-139 | Installation starts, and true is returned, iff the file exists, the SDK is below O or install permission is granted, and launching does not throw. The permission settings open iff only the permission is missing |
| ApkDownloadService.FormatFileSizeAgrees | repository/src/main/java/com/harry/repository/ApkDownloadService.kt:154-160 | The service's own formatter agrees with the update service's on every input |
| UpdateDialog.ToInstallationState | composables/src/main/java/com/harry/composables/UpdateDialog.kt:65-72 | Each installation result maps to the state of the same kind, keeping its message |
| UpdateDialog.InstallationMappingBijective | composables/src/main/java/com/harry/composables/UpdateDialog.kt:65-72 | The mapping is one-to-one and every state is reached |
| UpdateDialog.StartDownload | composables/src/main/java/com/harry/composables/UpdateDialog.kt:54-59 | Starting a download sets downloading and not complete, and clears progress and installation state |
| UpdateDialog.OnProgress | composables/src/main/java/com/harry/composables/UpdateDialog.kt:78-92 | Outside a running download an event changes nothing, and inside one the event is stored and a clean completion finishes the download, an error stops it without marking it complete, and any other event keeps it running |
| UpdateDialog.RequestInstallation | composables/src/main/java/com/harry/composables/UpdateDialog.kt:388 | The install button takes effect only when the state is not `Installing` |
| UpdateDialog.OnInstallResult | composables/src/main/java/com/harry/composables/UpdateDialog.kt:62-72 | An installation result is recorded only while an installation was requested |
| UpdateDialog.InstallFinished | composables/src/main/java/com/harry/composables/UpdateDialog.kt:73 | The end of the result stream clears the request and nothing else |
| UpdateDialog.InstallationLeavesDownloadAlone | composables/src/main/java/com/harry/composables/UpdateDialog.kt:62-73 | Requesting, recording and finishing an installation keep the download progress and flags, so the section shown stays the same kind and the install panel stays the install panel |
| UpdateDialog.InstallRequestProtocol | composables/src/main/java/com/harry/composables/UpdateDialog.kt:62-73 | After the result stream ends no result is recorded until the button is clicked again, a click while installing is refused, and otherwise the next result is the one recorded |
| UpdateDialog.TransitionsKeepConsistent | composables/src/main/java/com/harry/composables/UpdateDialog.kt:54-92 | Every transition keeps the dialog consistent: never downloading and complete at once, complete only with a clean complete event, and no stored error while downloading |
| UpdateDialog.DownloadSettles | composables/src/main/java/com/harry/composables/UpdateDialog.kt:78-92 | Feeding a whole stream stops the download. A complete ending marks it complete; an error ending leaves it incomplete with the error stored |
| UpdateDialog.ForcedNeverDismissable | composables/src/main/java/com/harry/composables/UpdateDialog.kt:94-99 | A forced update is never dismissable; otherwise the dialog is dismissable iff no download is running |
| UpdateDialog.ShowPanel | composables/src/main/java/com/harry/composables/UpdateDialog.kt:340-633 | The error panel appears iff progress holds an error. Failing that, the install panel appears iff the download is complete, and the progress panel iff it is running with progress. Install is enabled and labelled "Install Update" iff not `Installing`, and quick uninstall shows iff not `ConflictDetected`. Progress labels use the file-size format |
| UpdateDialog.ShowSection | composables/src/main/java/com/harry/composables/UpdateDialog.kt:191-252 | The download section shows iff downloading or complete. Otherwise the button row shows "Later" iff the update is not forced, and an enabled download button |
| UpdateDialog.FailureNeverVisible | composables/src/main/java/com/harry/composables/UpdateDialog.kt:191 | As written, no consistent dialog ever shows a download error |
| UpdateDialog.NotFoundDownloadHidden | composables/src/main/java/com/harry/composables/UpdateDialog.kt:78-92 | A download answered with 404 stores its error, yet the dialog shows the plain button row |
| UpdateDialog.ShowSectionFixed | composables/src/main/java/com/harry/composables/UpdateDialog.kt:340-355 | Without a stored download error it is the section as written, and with one in a consistent state it is the button row with "Later" exactly when the update is optional, an enabled download button and that error as "Download failed: <e>" |
| UpdateDialog.FailedDownloadVisible | composables/src/main/java/com/harry/composables/UpdateDialog.kt:340-355 | With the correction, a stream ending in an error leaves "Download failed: <error>" visible and the download button enabled for a retry |
| CurrencyRepository.ConvertCurrency | repository/src/main/java/com/harry/repository/CurrencyRepository.kt:46-80 | A failing cache read fails at once, and otherwise the API is called exactly when no snapshot under one whole hour old is cached, a cache hit converts with the cached rates, a successful fetch whose cache write goes through caches the rates stamped with the second clock read and converts with them, and a failing fetch or cache write yields "Failed to fetch exchange rate: <reason>" with nothing cached |
| CurrencyRepository.ConvertFailuresShareOnePrefix | repository/src/main/java/com/harry/repository/CurrencyRepository.kt:51-79 | Every failure message starts with "Failed to fetch exchange rate: ", and a snapshot is cached exactly when the API answered and the cache write went through, after which only a missing target currency can still fail |
| CurrencyRepository.CacheHitIffWithinHour | repository/src/main/java/com/harry/repository/CurrencyRepository.kt:53-60 | The API is skipped exactly when the cache read fails or finds a snapshot stamped less than an hour before now, counting future-stamped snapshots as fresh |
| CurrencyRepository.FreshCacheExample | repository/src/test/java/com/harry/repository/CurrencyRepositoryTest.kt:29-41 | 100 USD at a cached 0.85 converts to 85.0 without calling the API |
| CurrencyRepository.UnsupportedCurrencyFails | repository/src/test/java/com/harry/repository/CurrencyRepositoryTest.kt:43-56 | A target missing from the rates fails with the wrapped "Currency not supported" message |
| CurrencyRepository.DeleteOldRates | repository/src/main/java/com/harry/repository/CurrencyRepository.kt:103-105 | Removes exactly the rates older than the timestamp's UTC epoch second, and counts them |
| CurrencyRepository.CleanupOldRates | repository/src/main/java/com/harry/repository/CurrencyRepository.kt:83-89 | Keeps exactly the rates at most one day old, and counts the removed ones |
| DateTime.TruncDiv | repository/src/main/java/com/harry/repository/CurrencyRepository.kt:55 | Division rounds toward zero, bracketing the dividend from either side |
| DateTime.LessThanOneHourIff | repository/src/main/java/com/harry/repository/CurrencyRepository.kt:55 | Fewer than one whole hour between two instants iff the second is less than an hour after the first |
| DateTime.DateTimeRoundTrip | viewmodels/src/main/java/com/harry/viewmodels/DashboardViewModel.kt:70-85 | A date-time survives the epoch-second round trip truncated to the second, and unchanged when it has no nanoseconds |
| DashboardViewModel.InitialState | viewmodels/src/main/java/com/harry/viewmodels/DashboardViewModel.kt:23-31 | The screen starts with an empty amount, USD to EUR, result "0.00", not loading, no error, and no history |
| DashboardViewModel.UpdateAmount | viewmodels/src/main/java/com/harry/viewmodels/DashboardViewModel.kt:89-91 | Sets the amount and changes nothing else |
| DashboardViewModel.UpdateFromCurrency | viewmodels/src/main/java/com/harry/viewmodels/DashboardViewModel.kt:93-95 | Sets the source currency and changes nothing else |
| DashboardViewModel.UpdateToCurrency | viewmodels/src/main/java/com/harry/viewmodels/DashboardViewModel.kt:97-99 | Sets the target currency and changes nothing else |
| DashboardViewModel.SwapCurrencies | viewmodels/src/main/java/com/harry/viewmodels/DashboardViewModel.kt:101-108 | Exchanges source and target and changes nothing else |
| DashboardViewModel.ClearError | viewmodels/src/main/java/com/harry/viewmodels/DashboardViewModel.kt:195-197 | Clears the error and changes nothing else |
| DashboardViewModel.SwapInvolution | viewmodels/src/test/java/com/harry/viewmodels/DashboardViewModelTest.kt:48-55 | Swapping twice restores the state |
| DashboardViewModel.SwapExample | viewmodels/src/test/java/com/harry/viewmodels/DashboardViewModelTest.kt:48-55 | USD→EUR swaps to EUR→USD |
| DashboardViewModel.UpdatesCommute | viewmodels/src/test/java/com/harry/viewmodels/DashboardViewModelTest.kt:42-46 | Field-local updates of different fields commute |
| DashboardViewModel.BeginConvert | viewmodels/src/main/java/com/harry/viewmodels/DashboardViewModel.kt:110-120 | An unparseable amount only sets "Please enter a valid amount" and makes no request. A valid one starts loading, clears the error and changes nothing else |
| DashboardViewModel.InvalidAmountExample | viewmodels/src/test/java/com/harry/viewmodels/DashboardViewModelTest.kt:57-62 | "invalid" produces the validation error and no request |
| DashboardViewModel.FinishConvert | viewmodels/src/main/java/com/harry/viewmodels/DashboardViewModel.kt:122-170 | Loading always ends, a found rate whose history write goes through shows the formatted rate for the target (0 when missing, not amount × rate) and stores one row recording it, and a repository error, a thrown exception or a failing history write sets the matching error and keeps the previous result |
| DashboardViewModel.ResultChangesOnlyWithStoredRow | viewmodels/src/main/java/com/harry/viewmodels/DashboardViewModel.kt:122-170 | A row is stored exactly when rates were found and the history write went through, in which case the screen shows that row's rate for the converted amount, and otherwise the previous result stays and an error is set |
| DashboardViewModel.ConvertExample | viewmodels/src/test/java/com/harry/viewmodels/DashboardViewModelTest.kt:64-77 | Converting "100" USD→EUR with a rate of 85 shows "85.00" with no error |
| DashboardViewModel.ToConversionRecord | viewmodels/src/main/java/com/harry/viewmodels/DashboardViewModel.kt:63-75 | A history row becomes a record with the same currencies, amount and result, stamped at its epoch second |
| DashboardViewModel.ToConversionHistory | viewmodels/src/main/java/com/harry/viewmodels/DashboardViewModel.kt:78-87 | A record becomes an unsaved row with the same fields, rate × amount = result for a non-zero amount, and the record's UTC epoch second |
| DashboardViewModel.RecordRoundTrip | viewmodels/src/main/java/com/harry/viewmodels/DashboardViewModel.kt:63-87 | record → row → record keeps everything but sub-second precision |
| DashboardViewModel.HistoryRoundTrip | viewmodels/src/main/java/com/harry/viewmodels/DashboardViewModel.kt:63-87 | row → record → row is the identity on unsaved rows whose rate is result/amount |
| DashboardViewModel.OnHistory | viewmodels/src/main/java/com/harry/viewmodels/DashboardViewModel.kt:51-59 | A new history list replaces the shown history row by row and changes nothing else |
| DashboardViewModel.RunCheck | viewmodels/src/main/java/com/harry/viewmodels/DashboardViewModel.kt:173-193 | The callback gets the manager's answer, or a no-update answer carrying the exception's message, which is no error at all when the message is null |
| DashboardViewModel.ForcedCheckBypassesThrottle | viewmodels/src/main/java/com/harry/viewmodels/DashboardViewModel.kt:184-193 | A forced check always reaches the release feed, whatever the stored time |
| ExchangeRateDao.GetExchangeRates | database/src/main/java/com/harry/database/ExchangeRateDao.kt:9-10 | All rows, newest first |
| ExchangeRateDao.GetLatestExchangeRate | database/src/main/java/com/harry/database/ExchangeRateDao.kt:12-13 | A row with that base and the largest timestamp, or none iff no row has that base |
| ExchangeRateDao.GetExchangeRatesByDateRange | database/src/main/java/com/harry/database/ExchangeRateDao.kt:15-16 | Exactly the rows with that base and start ≤ timestamp ≤ end, newest first |
| ExchangeRateDao.InsertExchangeRate | database/src/main/java/com/harry/database/ExchangeRateDao.kt:18-19 | Replaces the row with the same base, so each base is stored at most once and the new row is present. Nothing else changes |
| ExchangeRateDao.LatestAfterInsert | database/src/main/java/com/harry/database/ExchangeRateDao.kt:12-19 | Right after an insert, the latest rate for its base is the inserted row |
| ExchangeRateDao.DeleteOldRates | database/src/main/java/com/harry/database/ExchangeRateDao.kt:21-22 | Removes exactly the rows older than the timestamp (keeping equal ones) and returns how many |
| ExchangeRateDao.DeleteOldRatesKeepsKey | database/src/main/java/com/harry/database/ExchangeRateDao.kt:21-22 | Deleting keeps each base stored at most once |
| ExchangeRateDao.DeleteAllRates | database/src/main/java/com/harry/database/ExchangeRateDao.kt:24-25 | The table is empty afterwards |
| ConversionHistoryDao.GetConversionHistory | database/src/main/java/com/harry/database/ConversionHistoryDao.kt:9-10 | All rows, newest first |
| ConversionHistoryDao.GetRecentConversions | database/src/main/java/com/harry/database/ConversionHistoryDao.kt:12-13 | The first min(limit, n) rows of the newest-first order, or all rows for a negative limit |
| ConversionHistoryDao.InsertConversion | database/src/main/java/com/harry/database/ConversionHistoryDao.kt:15-16 | An unsaved row gets an id above any ever used. A row with an id replaces the row holding it. Ids stay positive and distinct, and nothing else changes |
| ConversionHistoryDao.DeleteOldConversions | database/src/main/java/com/harry/database/ConversionHistoryDao.kt:18-19 | Removes exactly the rows older than the timestamp and returns how many |
| ConversionHistoryDao.DeleteAllConversions | database/src/main/java/com/harry/database/ConversionHistoryDao.kt:21-22 | No rows remain, and the id sequence is kept |
| ConversionHistoryDao.IdsNotReusedAfterClear | database/src/main/java/com/harry/database/ConversionHistoryDao.kt:15-22 | A row inserted after clearing gets an id above every id the table held |
| FakeExchangeRateDao.GetExchangeRates | repository/src/test/java/com/harry/repository/FakeExchangeRateDao.kt:12 | The observable list is the stored list |
| FakeExchangeRateDao.GetLatestExchangeRate | repository/src/test/java/com/harry/repository/FakeExchangeRateDao.kt:14-16 | The last-inserted row with that base (by insertion order, not timestamp), or none iff there is none |
| FakeExchangeRateDao.GetExchangeRatesByDateRange | repository/src/test/java/com/harry/repository/FakeExchangeRateDao.kt:18-20 | Exactly the rows with that base inside the closed range, in insertion order |
| FakeExchangeRateDao.InsertExchangeRate | repository/src/test/java/com/harry/repository/FakeExchangeRateDao.kt:22-26 | Appends without replacing and returns the new size; the observable list follows |
| FakeExchangeRateDao.DeleteOldRates | repository/src/test/java/com/harry/repository/FakeExchangeRateDao.kt:28-33 | Removes exactly the older rows, keeps the order of the rest, and returns the count (old size = new size + count) |
| FakeExchangeRateDao.DeleteAllRates | repository/src/test/java/com/harry/repository/FakeExchangeRateDao.kt:35-38 | The store and its observable list are empty |
| FakeExchangeRateDao.LatestIsLastInserted | repository/src/test/java/com/harry/repository/FakeExchangeRateDao.kt:14-26 | Right after an insert, the latest rate for its base is the inserted row |
| FakeExchangeRateDao.DuplicatesKept | repository/src/test/java/com/harry/repository/FakeExchangeRateDao.kt:22-26 | Two inserts with one base keep two rows in the fake, where the Room table keeps one |
| FakeConversionHistoryDao.GetConversionHistory | repository/src/test/java/com/harry/repository/FakeConversionHistoryDao.kt:12 | The observable list is the stored list in insertion order |
| FakeConversionHistoryDao.GetRecentConversions | repository/src/test/java/com/harry/repository/FakeConversionHistoryDao.kt:14-16 | The first min(limit, n) rows of the stored rows sorted newest first (ties in insertion order). A negative limit throws "Requested element count <n> is less than zero." |
| FakeConversionHistoryDao.RecentTiesInInsertionOrder | repository/src/test/java/com/harry/repository/FakeConversionHistoryDao.kt:15 | Rows with equal timestamps come back in insertion order |
| Seqs.SortDescStable | repository/src/test/java/com/harry/repository/FakeConversionHistoryDao.kt:15 | Sorting by descending key keeps rows with equal keys in their original order |
| FakeConversionHistoryDao.InsertConversion | repository/src/test/java/com/harry/repository/FakeConversionHistoryDao.kt:18-22 | Appends and returns the new size; the observable list follows |
| FakeConversionHistoryDao.DeleteOldConversions | repository/src/test/java/com/harry/repository/FakeConversionHistoryDao.kt:24-29 | Removes exactly the older rows, keeps the order of the rest, and returns the count |
| FakeConversionHistoryDao.DeleteAllConversions | repository/src/test/java/com/harry/repository/FakeConversionHistoryDao.kt:31-34 | The store and its observable list are empty |
| FakeConversionHistoryDao.HistoryOrderDiffersFromTable | repository/src/test/java/com/harry/repository/FakeConversionHistoryDao.kt:12-22 | The fake lists history in insertion order where the Room table lists it newest first |
| Text.JoinSplit | repository/src/main/java/com/harry/repository/UpdateService.kt:162 | Joining the lines of a body with "\n" gives the body back |
| Text.TrimIdempotent | repository/src/main/java/com/harry/repository/UpdateService.kt:179 | Trimming twice is trimming once |

## Left out

- Network, file and package-manager I/O, coroutines, Flows and `delay`: HTTP answers, chunk streams, device state, package lookups, file existence, clock reads and the outcome of the Room reads and writes inside the conversion's `try` blocks are inputs. Message-clearing timers are not modelled.
- JSON decoding of the release: the release is a record, and a payload that cannot be decoded is a `Failure` with its reason.
- `formatReleaseDate` and the `X-RateLimit-Reset` clock rendering: both are `java.time`/`SimpleDateFormat` formatting, passed in as a function or as the already-rendered clock text.
- Floating point: amounts and rates are `real`. `toDoubleOrNull` and `String.format("%.2f")` are uninterpreted parameters, and no IEEE rounding is modelled.
- DashboardViewModel.ToConversionHistory: for a zero amount Kotlin stores Infinity or NaN as the rate; the model stores 0 and states the rate only for non-zero amounts.
- The row id returned by the Room `insertExchangeRate`: it is a SQLite rowid with no further meaning in the code.
- `getCurrentVersionName` and `getLastUpdateCheckFlow` of the update manager: a display string and a Flow wrapper, used by no decision.
- `uninstallCurrentApp`: it only starts an Intent.
- The repository's exchange-rate pass-throughs (CurrencyRepository.kt lines 91-101): they forward to the DAO, which is modelled.
- Long overflow in time arithmetic: timestamps are unbounded integers. Int overflow is modelled where the code depends on it (the version-code regex and the force-update difference).
- ApkDownloadService.PercentageBounded: the Long-to-Int truncation of `(bytes * 100 / total).toInt()` is not modelled; percentages are exact integers.
- Text.IsWhitespace: `trim` uses the JVM whitespace class. Unicode case folding and normalisation are not modelled.
- The `ConversionHistory` entity file is not part of this model. Its id is taken to be an autoincrement primary key that is 0 while unassigned.
- CurrencyRepository.CleanupOldRates: the source passes a `LocalDateTime` where the DAO takes epoch seconds; the model converts it through the UTC epoch second.
- `installWithConflictResolution` and `InstallationResult` are not defined in the modelled files. The dialog consumes them as an abstract result stream.
- The three copies of `formatFileSize` (update service, download service, dialog) are one function, `FileSize.Format`; `ApkDownloadService.FormatFileSizeAgrees` ties the service's copy to it.
- Dashboard.OnCheckAnswered: callbacks are answered in the order their checks began.
- DashboardViewModel.RunCheck: an exception inside the manager is modelled as thrown before any work, so the store is unchanged.
- Compose layout, colours and the other UI files hold no decision logic.

## Findings

| source | as written | input that shows it | evidently intended | confidence | as-written member | corrected member |
|---|---|---|---|---|---|---|
| composables/src/main/java/com/harry/composables/UpdateDialog.kt:191 | The download section, which holds the "Download failed" panel (line 340), is shown only while `isDownloading \|\| downloadComplete`. A progress event with an error sets `isDownloading = false` (lines 87-89) and never sets `downloadComplete`, so the section disappears and the error panel can never be seen | Start a download whose server answers HTTP 404. The service emits "Download failed: HTTP 404", the dialog stores it and falls back to the plain button row with no message | A failed download shows its error, with the download button available to retry | not executed | UpdateDialog.FailureNeverVisible, UpdateDialog.NotFoundDownloadHidden | UpdateDialog.ShowSectionFixed, UpdateDialog.FailedDownloadVisible |
