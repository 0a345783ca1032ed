/** The installer download (repository/ApkDownloadService.kt): the stream of
    progress events a download produces and the checks made before the
    package installer is launched. The HTTP connection is an input: its
    status, its announced length, the sizes of the successive reads, and the
    exception that ended the transfer, if one did. */
module ApkDownloadService {
  import opened Wrappers
  import opened Text
  import FileSize
  import Arith

  /** One event of the download stream. */
  datatype DownloadProgress = DownloadProgress(
    bytesDownloaded: int,
    totalBytes: int,
    percentage: int,
    isComplete: bool,
    error: Option<string>)

  /** A read into the 8 KiB buffer returns between 1 and 8192 bytes until the
      end of the stream. */
  type ChunkSize = n: int | 1 <= n <= 8192 witness 1

  const HttpOk: int := 200

  /** What the connection delivered. `contentLength` is -1 when the length
      is unknown; `failure` is the message of an exception thrown after the
      listed reads (by a read, a write or the file system). */
  datatype DownloadResponse =
    | Responded(code: int, contentLength: int, chunks: seq<ChunkSize>, failure: Option<string>)
    | ConnectFailed(message: string)

  /** The event that reports a failure: everything else zero. */
  function ErrorEvent(message: string): DownloadProgress {
    DownloadProgress(0, 0, 0, false, Some(message))
  }

  function HttpFailure(code: int): string {
    "Download failed: HTTP " + IntToString(code)
  }

  function DownloadError(message: string): string {
    "Download error: " + message
  }

  /** Whole percent of `total` reached by `bytes`; 0 when the length is
      unknown. */
  function Percentage(bytes: int, total: int): int {
    if total > 0 then (bytes * 100) / total else 0
  }

  /** Within the announced length the percentage stays in 0..100 and never
      goes down. */
  lemma PercentageBounded(bytes: int, total: int)
    requires 0 <= bytes <= total
    ensures 0 <= Percentage(bytes, total) <= 100
  {
    if total > 0 {
      assert bytes * 100 <= total * 100;
    }
  }

  lemma PercentageMonotonic(b1: int, b2: int, total: int)
    requires 0 <= b1 <= b2
    ensures Percentage(b1, total) <= Percentage(b2, total)
  {
    if total > 0 {
      Arith.DivMonotonic(b1 * 100, b2 * 100, total);
    }
  }

  /** Total of the first reads. */
  function Sum(chunks: seq<ChunkSize>): (r: int)
    ensures r >= |chunks|
    decreases |chunks|
  {
    if |chunks| == 0 then 0 else Sum(chunks[..|chunks| - 1]) + chunks[|chunks| - 1]
  }

  /** The event after a read brought the total to `bytes`. */
  function ChunkEvent(bytes: int, total: int): DownloadProgress {
    DownloadProgress(bytes, total, Percentage(bytes, total), false, None)
  }

  /** Events `events[..n]` report running totals that strictly grow. */
  predicate StrictlyGrowing(events: seq<DownloadProgress>) {
    forall i, j :: 0 <= i < j < |events| ==> events[i].bytesDownloaded < events[j].bytesDownloaded
  }

  /** `downloadApk`: the events the stream emits, in order. */
  method DownloadApk(response: DownloadResponse) returns (events: seq<DownloadProgress>)
    ensures response.ConnectFailed? ==> events == [ErrorEvent(DownloadError(response.message))]
    ensures response.Responded? && response.code != HttpOk ==> events == [ErrorEvent(HttpFailure(response.code))]
    ensures response.Responded? && response.code == HttpOk ==>
      && |events| == |response.chunks| + 1
      && (forall k :: 0 <= k < |response.chunks| ==>
            events[k] == ChunkEvent(Sum(response.chunks[..k + 1]), response.contentLength))
      && StrictlyGrowing(events[..|response.chunks|])
      && (response.failure.None? ==>
            events[|response.chunks|] == DownloadProgress(Sum(response.chunks), response.contentLength, 100, true, None))
      && (response.failure.Some? ==>
            events[|response.chunks|] == ErrorEvent(DownloadError(response.failure.value)))
  {
    match response
    case ConnectFailed(message) =>
      events := [ErrorEvent(DownloadError(message))];
    case Responded(code, contentLength, chunks, failure) =>
      if code != HttpOk {
        events := [ErrorEvent(HttpFailure(code))];
        return;
      }
      var totalBytes := contentLength;
      var bytesDownloaded: int := 0;
      events := [];
      var i := 0;
      while i < |chunks|
        invariant 0 <= i <= |chunks|
        invariant |events| == i
        invariant bytesDownloaded == Sum(chunks[..i])
        invariant forall k :: 0 <= k < i ==> events[k] == ChunkEvent(Sum(chunks[..k + 1]), totalBytes)
        invariant forall k :: 0 <= k < i ==> events[k].bytesDownloaded <= bytesDownloaded
        invariant StrictlyGrowing(events)
      {
        assert chunks[..i + 1][..i] == chunks[..i];
        bytesDownloaded := bytesDownloaded + chunks[i];
        events := events + [ChunkEvent(bytesDownloaded, totalBytes)];
        i := i + 1;
      }
      assert chunks[..|chunks|] == chunks;
      match failure
      case Some(message) =>
        events := events + [ErrorEvent(DownloadError(message))];
      case None =>
        events := events + [DownloadProgress(bytesDownloaded, totalBytes, 100, true, None)];
  }

  /** Exactly one terminal event (complete or error), and it is the last. */
  predicate EndsOnce(events: seq<DownloadProgress>) {
    && |events| > 0
    && events[|events| - 1].isComplete != events[|events| - 1].error.Some?
    && forall k :: 0 <= k < |events| - 1 ==> !events[k].isComplete && events[k].error.None?
  }

  /** Whatever the connection does, the stream ends once: no complete event
      follows an error and no event follows completion. */
  method DownloadEndsOnce(response: DownloadResponse) returns (events: seq<DownloadProgress>)
    ensures EndsOnce(events)
  {
    events := DownloadApk(response);
  }

  /** The percentages of a stream whose reads stay within the announced
      length never go down and never pass 100. */
  lemma ChunkPercentagesProgress(chunks: seq<ChunkSize>, total: int, i: nat, j: nat)
    requires i <= j < |chunks| && Sum(chunks) <= total
    ensures Percentage(Sum(chunks[..i + 1]), total) <= Percentage(Sum(chunks[..j + 1]), total) <= 100
  {
    SumPrefixMonotonic(chunks, i + 1, j + 1);
    SumPrefixMonotonic(chunks, j + 1, |chunks|);
    assert chunks[..|chunks|] == chunks;
    PercentageMonotonic(Sum(chunks[..i + 1]), Sum(chunks[..j + 1]), total);
    PercentageBounded(Sum(chunks[..j + 1]), total);
  }

  lemma {:induction false} SumPrefixMonotonic(chunks: seq<ChunkSize>, m: nat, n: nat)
    requires m <= n <= |chunks|
    ensures Sum(chunks[..m]) <= Sum(chunks[..n])
    decreases n - m
  {
    if m < n {
      SumPrefixMonotonic(chunks, m, n - 1);
      assert chunks[..n][..n - 1] == chunks[..n - 1];
    }
  }

  // ---------------------------------------------------------------------------
  // Installing
  // ---------------------------------------------------------------------------

  /** Android 8.0, from which installing needs the "unknown sources"
      permission. */
  const SdkO: int := 26

  /** What `installApk` leaves on screen besides its answer. */
  datatype InstallEffect = NothingOpened | PermissionSettingsOpened | InstallerOpened

  /** `installApk`: the downloaded file must exist and, from Android 8.0 on,
      the app must be allowed to request installs; without that permission
      the settings page for it opens instead. `startFails` says whether
      starting an activity throws, which the method swallows. Answers whether
      the installer was started. */
  function InstallApk(fileExists: bool, sdkInt: int, canRequestPackageInstalls: bool, startFails: bool): (r: (bool, InstallEffect))
    ensures r.0 <==> fileExists && (sdkInt < SdkO || canRequestPackageInstalls) && !startFails
    ensures r.0 <==> r.1 == InstallerOpened
    ensures r.1 == PermissionSettingsOpened <==>
      fileExists && sdkInt >= SdkO && !canRequestPackageInstalls && !startFails
  {
    if !fileExists then (false, NothingOpened)
    else if sdkInt >= SdkO && !canRequestPackageInstalls then
      (false, if startFails then NothingOpened else PermissionSettingsOpened)
    else if startFails then (false, NothingOpened)
    else (true, InstallerOpened)
  }

  // ---------------------------------------------------------------------------
  // Sizes
  // ---------------------------------------------------------------------------

  /** The service's own copy of the byte-count formatter. */
  function FormatFileSize(bytes: int): string {
    if bytes >= 1024 * 1024 then IntToString(bytes / (1024 * 1024)) + " MB"
    else if bytes >= 1024 then IntToString(bytes / 1024) + " KB"
    else IntToString(bytes) + " bytes"
  }

  /** It agrees with the update check's formatter on every count, so the size
      announced in the dialog and the sizes shown while downloading use the
      same units. */
  lemma FormatFileSizeAgrees(bytes: int)
    ensures FormatFileSize(bytes) == FileSize.Format(bytes)
  {
  }
}
