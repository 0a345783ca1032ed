/** The update-check records shared by the update service, the update
    manager and the dashboard (model/UpdateInfo.kt). */
module UpdateModel {
  import opened Wrappers

  /** What the dialog shows about an available release. */
  datatype UpdateInfo = UpdateInfo(
    latestVersion: string,
    latestVersionCode: int,
    downloadUrl: string,
    releaseNotes: string,
    isForceUpdate: bool,
    minSupportedVersion: int,
    releaseDate: string,
    fileSize: string)

  /** The answer to one update check; `error` is a human-readable reason when
      the check could not be completed. */
  datatype UpdateCheckResponse = UpdateCheckResponse(
    hasUpdate: bool,
    updateInfo: Option<UpdateInfo>,
    error: Option<string>)

  /** The answer carries release details exactly when it announces an update,
      and an error never comes with an update. */
  predicate WellFormed(r: UpdateCheckResponse) {
    && (r.hasUpdate <==> r.updateInfo.Some?)
    && (r.error.Some? ==> !r.hasUpdate)
  }

  /** `UpdateCheckResponse(hasUpdate = false, error = message)`. */
  function Failed(message: string): (r: UpdateCheckResponse)
    ensures WellFormed(r) && !r.hasUpdate && r.error == Some(message)
  {
    UpdateCheckResponse(false, None, Some(message))
  }

  /** `UpdateCheckResponse(hasUpdate = false)`. */
  function NoUpdate(): (r: UpdateCheckResponse)
    ensures WellFormed(r) && !r.hasUpdate && r.error.None?
  {
    UpdateCheckResponse(false, None, None)
  }
}
