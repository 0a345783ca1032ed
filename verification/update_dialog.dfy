/** The update dialog (composables/UpdateDialog.kt): its download and
    installation state, the transitions the download and installation
    streams drive, and what the dialog shows for each state. The streams are
    inputs: one event at a time. */
module UpdateDialog {
  import opened Wrappers
  import FileSize
  import opened ApkDownloadService

  /** What the dialog shows about the installer. */
  datatype InstallationState =
    | Installing
    | Success
    | Error(message: string)
    | ConflictDetected(message: string)

  /** The repository's installation result stream element. The repository
      class that produces it is not part of this model; only its four cases
      are used. */
  datatype InstallationResult =
    | ResultInstalling
    | ResultSuccess
    | ResultError(message: string)
    | ResultConflictDetected(message: string)

  /** The collector's `when`: each result becomes the matching state, with
      its message. */
  function ToInstallationState(result: InstallationResult): (st: InstallationState)
    ensures st.Installing? <==> result.ResultInstalling?
    ensures st.Success? <==> result.ResultSuccess?
    ensures st.Error? <==> result.ResultError?
    ensures st.ConflictDetected? <==> result.ResultConflictDetected?
    ensures st.Error? ==> st.message == result.message
    ensures st.ConflictDetected? ==> st.message == result.message
  {
    match result
    case ResultInstalling => Installing
    case ResultSuccess => InstallationState.Success
    case ResultError(m) => Error(m)
    case ResultConflictDetected(m) => ConflictDetected(m)
  }

  /** The mapping loses nothing: different results give different states,
      and every state comes from some result. */
  lemma InstallationMappingBijective(a: InstallationResult, b: InstallationResult, st: InstallationState)
    ensures ToInstallationState(a) == ToInstallationState(b) ==> a == b
    ensures exists r :: ToInstallationState(r) == st
  {
    if st.Installing? {
      assert ToInstallationState(ResultInstalling) == st;
    } else if st.Success? {
      assert ToInstallationState(ResultSuccess) == st;
    } else if st.Error? {
      assert ToInstallationState(ResultError(st.message)) == st;
    } else {
      assert ToInstallationState(ResultConflictDetected(st.message)) == st;
    }
  }

  // ---------------------------------------------------------------------------
  // State and transitions
  // ---------------------------------------------------------------------------

  /** The dialog's remembered state. */
  datatype DialogState = DialogState(
    progress: Option<DownloadProgress>,
    isDownloading: bool,
    downloadComplete: bool,
    installation: Option<InstallationState>,
    shouldStartInstallation: bool)

  const InitialDialog: DialogState := DialogState(None, false, false, None, false)

  predicate HasError(progress: Option<DownloadProgress>) {
    progress.Some? && progress.value.error.Some?
  }

  /** What the transitions keep true: the download is never both running
      and finished, a finished download stored its successful completion
      event, and a running download has stored no error. */
  predicate Consistent(s: DialogState) {
    && !(s.isDownloading && s.downloadComplete)
    && (s.downloadComplete ==> s.progress.Some? && s.progress.value.isComplete && s.progress.value.error.None?)
    && (s.isDownloading ==> !HasError(s.progress))
  }

  lemma InitialConsistent()
    ensures Consistent(InitialDialog)
  {
  }

  /** `startDownload`: the download runs again from scratch. */
  function StartDownload(s: DialogState): (r: DialogState)
    ensures r.isDownloading && !r.downloadComplete
    ensures r.progress.None? && r.installation.None?
    ensures r.shouldStartInstallation == s.shouldStartInstallation
    ensures Consistent(r)
  {
    s.(isDownloading := true, downloadComplete := false, progress := None, installation := None)
  }

  /** The progress collector runs only while the dialog is downloading and
      the download has not finished; outside that its effect is cancelled. */
  predicate Collecting(s: DialogState) {
    s.isDownloading && !s.downloadComplete
  }

  /** One download event reaching the collector. */
  function OnProgress(s: DialogState, p: DownloadProgress): (r: DialogState)
    ensures !Collecting(s) ==> r == s
    ensures Collecting(s) ==> r.progress == Some(p)
    ensures Collecting(s) && p.isComplete && p.error.None? ==> r.downloadComplete && !r.isDownloading
    ensures Collecting(s) && p.error.Some? ==> !r.isDownloading && r.downloadComplete == s.downloadComplete
    ensures Collecting(s) && !p.isComplete && p.error.None? ==> Collecting(r)
    ensures r.installation == s.installation && r.shouldStartInstallation == s.shouldStartInstallation
  {
    if !Collecting(s) then s
    else
      var stored := s.(progress := Some(p));
      var finished :=
        if p.isComplete && p.error.None? then stored.(downloadComplete := true, isDownloading := false)
        else stored;
      if p.error.Some? then finished.(isDownloading := false) else finished
  }

  /** The install button asks for the installation to start; the button is
      disabled while the installer is running. */
  function RequestInstallation(s: DialogState): (r: DialogState)
    ensures InstallEnabled(s.installation) ==> r == s.(shouldStartInstallation := true)
    ensures !InstallEnabled(s.installation) ==> r == s
  {
    if InstallEnabled(s.installation) then s.(shouldStartInstallation := true) else s
  }

  /** One installation result reaching the collector, which runs only after
      an installation was requested. */
  function OnInstallResult(s: DialogState, result: InstallationResult): (r: DialogState)
    ensures s.shouldStartInstallation ==> r == s.(installation := Some(ToInstallationState(result)))
    ensures !s.shouldStartInstallation ==> r == s
  {
    if s.shouldStartInstallation then s.(installation := Some(ToInstallationState(result))) else s
  }

  /** The installation stream ended: a later click starts a new one. */
  function InstallFinished(s: DialogState): (r: DialogState)
    ensures !r.shouldStartInstallation
    ensures r.(shouldStartInstallation := s.shouldStartInstallation) == s
  {
    s.(shouldStartInstallation := false)
  }

  /** Every transition keeps the dialog consistent. */
  lemma TransitionsKeepConsistent(s: DialogState, p: DownloadProgress, result: InstallationResult)
    requires Consistent(s)
    ensures Consistent(StartDownload(s))
    ensures Consistent(OnProgress(s, p))
    ensures Consistent(RequestInstallation(s))
    ensures Consistent(OnInstallResult(s, result))
    ensures Consistent(InstallFinished(s))
  {
  }

  /** Two states agree on everything about the download. */
  predicate SameDownload(a: DialogState, b: DialogState) {
    a.progress == b.progress && a.isDownloading == b.isDownloading && a.downloadComplete == b.downloadComplete
  }

  /** The installation transitions never touch the download: the section
      stays the same kind, and only a recorded result can change what the
      install panel shows. */
  lemma InstallationLeavesDownloadAlone(s: DialogState, result: InstallationResult, isForceUpdate: bool)
    ensures SameDownload(s, RequestInstallation(s))
    ensures SameDownload(s, OnInstallResult(s, result))
    ensures SameDownload(s, InstallFinished(s))
    ensures ShowSection(RequestInstallation(s), isForceUpdate) == ShowSection(s, isForceUpdate)
    ensures ShowSection(InstallFinished(s), isForceUpdate) == ShowSection(s, isForceUpdate)
    ensures ShowSection(OnInstallResult(s, result), isForceUpdate).DownloadSection?
      == ShowSection(s, isForceUpdate).DownloadSection?
    ensures ShowPanel(OnInstallResult(s, result)).InstallPanel? == ShowPanel(s).InstallPanel?
  {
  }

  /** The click protocol: once the installation stream has ended no result
      is recorded until the button is clicked again, the click is refused
      while the installer runs, and otherwise the next result is the one
      shown. */
  lemma InstallRequestProtocol(s: DialogState, result: InstallationResult)
    ensures OnInstallResult(InstallFinished(s), result) == InstallFinished(s)
    ensures s.installation == Some(Installing) ==> RequestInstallation(s) == s
    ensures InstallEnabled(s.installation) ==>
      OnInstallResult(RequestInstallation(InstallFinished(s)), result).installation == Some(ToInstallationState(result))
    ensures RequestInstallation(OnInstallResult(RequestInstallation(s), ResultInstalling))
      == OnInstallResult(RequestInstallation(s), ResultInstalling)
  {
  }

  /** The events of one download, delivered in order. */
  function Feed(s: DialogState, events: seq<DownloadProgress>): (r: DialogState)
    ensures Consistent(s) ==> Consistent(r)
    decreases |events|
  {
    if |events| == 0 then s else Feed(OnProgress(s, events[0]), events[1..])
  }

  /** Feeding a whole download stream to a fresh download leaves the dialog
      no longer downloading: finished when the stream completed, holding the
      error when it failed. */
  lemma {:induction false} DownloadSettles(s: DialogState, events: seq<DownloadProgress>)
    requires Collecting(s) && EndsOnce(events)
    ensures !Feed(s, events).isDownloading
    ensures events[|events| - 1].isComplete ==> Feed(s, events).downloadComplete
    ensures events[|events| - 1].error.Some? ==>
      !Feed(s, events).downloadComplete && Feed(s, events).progress == Some(events[|events| - 1])
    decreases |events|
  {
    var next := OnProgress(s, events[0]);
    if |events| > 1 {
      assert Collecting(next);
      var rest := events[1..];
      assert rest[|rest| - 1] == events[|events| - 1];
      assert forall k :: 0 <= k < |rest| - 1 ==> rest[k] == events[k + 1];
      DownloadSettles(next, rest);
    }
  }

  // ---------------------------------------------------------------------------
  // What the dialog shows
  // ---------------------------------------------------------------------------

  /** Back press, outside click and dismiss requests close the dialog only
      for an optional update that is not downloading. */
  predicate Dismissable(isForceUpdate: bool, s: DialogState) {
    !isForceUpdate && !s.isDownloading
  }

  lemma ForcedNeverDismissable(s: DialogState)
    ensures !Dismissable(true, s)
    ensures Dismissable(false, s) <==> !s.isDownloading
  {
  }

  /** The install button is enabled unless the installer is running. */
  predicate InstallEnabled(installation: Option<InstallationState>) {
    installation != Some(Installing)
  }

  /** The panel inside the download section. */
  datatype Panel =
    | ErrorPanel(text: string)
    | InstallPanel(installEnabled: bool, installLabel: string, showQuickUninstall: bool, status: Option<InstallationState>)
    | ProgressPanel(percentage: int, downloaded: string, total: string)
    | EmptyPanel

  /** The part of the dialog below the release notes: the download section,
      or the row of buttons. `failure` is a download error shown with the
      buttons. */
  datatype Section =
    | DownloadSection(panel: Panel)
    | ButtonRow(showLater: bool, downloadEnabled: bool, failure: Option<string>)

  const DownloadFailedPrefix: string := "Download failed: "
  const InstallingLabel: string := "Installing..."
  const InstallLabel: string := "Install Update"

  /** `DownloadProgressSection`: an error first, then the finished download,
      then the running download once it has reported progress. */
  function ShowPanel(s: DialogState): (r: Panel)
    ensures HasError(s.progress) <==> r.ErrorPanel?
    ensures r.ErrorPanel? ==> r.text == DownloadFailedPrefix + s.progress.value.error.value
    ensures r.InstallPanel? <==> !HasError(s.progress) && s.downloadComplete
    ensures r.ProgressPanel? <==>
      !HasError(s.progress) && !s.downloadComplete && s.isDownloading && s.progress.Some?
    ensures r.InstallPanel? ==>
      && (r.installEnabled <==> s.installation != Some(Installing))
      && (r.installLabel == InstallingLabel <==> s.installation == Some(Installing))
      && (r.showQuickUninstall <==> !(s.installation.Some? && s.installation.value.ConflictDetected?))
      && r.status == s.installation
    ensures r.ProgressPanel? ==>
      && r.percentage == s.progress.value.percentage
      && r.downloaded == FileSize.Format(s.progress.value.bytesDownloaded)
      && r.total == FileSize.Format(s.progress.value.totalBytes)
  {
    if HasError(s.progress) then ErrorPanel(DownloadFailedPrefix + s.progress.value.error.value)
    else if s.downloadComplete then
      var installing := s.installation == Some(Installing);
      InstallPanel(
        InstallEnabled(s.installation),
        if installing then InstallingLabel else InstallLabel,
        !(s.installation.Some? && s.installation.value.ConflictDetected?),
        s.installation)
    else if s.isDownloading && s.progress.Some? then
      ProgressPanel(s.progress.value.percentage,
        FileSize.Format(s.progress.value.bytesDownloaded),
        FileSize.Format(s.progress.value.totalBytes))
    else EmptyPanel
  }

  /** The dialog as written: the download section while downloading or
      once finished, otherwise the buttons, with "Later" only for an
      optional update and the download button enabled when not downloading. */
  function ShowSection(s: DialogState, isForceUpdate: bool): (r: Section)
    ensures r.DownloadSection? <==> s.isDownloading || s.downloadComplete
    ensures r.DownloadSection? ==> r.panel == ShowPanel(s)
    ensures r.ButtonRow? ==> (r.showLater <==> !isForceUpdate) && r.downloadEnabled && r.failure.None?
  {
    if s.isDownloading || s.downloadComplete then DownloadSection(ShowPanel(s))
    else ButtonRow(!isForceUpdate, !s.isDownloading, None)
  }

  /** The download error text on screen, if any. */
  function VisibleFailure(section: Section): Option<string> {
    match section
    case DownloadSection(ErrorPanel(text)) => Some(text)
    case DownloadSection(_) => None
    case ButtonRow(_, _, failure) => failure
  }

  /** As written, a consistent dialog never shows a download error: an error
      event stops the download, which hides the section that holds the
      error panel. */
  lemma FailureNeverVisible(s: DialogState, isForceUpdate: bool)
    requires Consistent(s)
    ensures VisibleFailure(ShowSection(s, isForceUpdate)).None?
  {
  }

  /** A download answered with HTTP 404: the error is stored, yet the dialog
      shows only the buttons. */
  lemma NotFoundDownloadHidden(isForceUpdate: bool)
    ensures HasError(OnProgress(StartDownload(InitialDialog), ErrorEvent(HttpFailure(404))).progress)
    ensures ShowSection(OnProgress(StartDownload(InitialDialog), ErrorEvent(HttpFailure(404))), isForceUpdate)
      == ButtonRow(!isForceUpdate, true, None)
  {
  }

  /** The dialog with the failure shown: after a failed download the buttons
      come back, so the download can be retried, together with the error
      text. Otherwise it is the dialog as written. */
  function ShowSectionFixed(s: DialogState, isForceUpdate: bool): (r: Section)
    ensures !HasError(s.progress) ==> r == ShowSection(s, isForceUpdate)
    ensures Consistent(s) && HasError(s.progress) ==>
      r == ButtonRow(!isForceUpdate, true, Some(DownloadFailedPrefix + s.progress.value.error.value))
  {
    match ShowSection(s, isForceUpdate)
    case ButtonRow(showLater, downloadEnabled, _) =>
      ButtonRow(showLater, downloadEnabled,
        if HasError(s.progress) then Some(DownloadFailedPrefix + s.progress.value.error.value) else None)
    case section => section
  }

  /** Every failed download stream leaves its error on screen, next to an
      enabled download button. */
  lemma FailedDownloadVisible(s: DialogState, events: seq<DownloadProgress>, isForceUpdate: bool)
    requires Consistent(s) && Collecting(s) && EndsOnce(events)
    requires events[|events| - 1].error.Some?
    ensures VisibleFailure(ShowSectionFixed(Feed(s, events), isForceUpdate))
      == Some(DownloadFailedPrefix + events[|events| - 1].error.value)
    ensures ShowSectionFixed(Feed(s, events), isForceUpdate).downloadEnabled
  {
    DownloadSettles(s, events);
  }
}
