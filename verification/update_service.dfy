/** The release-feed client (repository/UpdateService.kt): maps the HTTP
    answer of the "latest release" endpoint to an update-check response, and
    reads the version code, the installable asset and the release notes out
    of the release record. The network and the JSON decoder are abstracted:
    the endpoint's answer arrives as a `FeedResponse`. */
module UpdateService {
  import opened Wrappers
  import opened Text
  import opened Seqs
  import FileSize
  import opened UpdateModel

  /** A 32-bit Kotlin `Int`. */
  type Int32 = x: int | -0x8000_0000 <= x <= 0x7FFF_FFFF

  const IntMax: int := 0x7FFF_FFFF

  /** One entry of the release's `assets` array. */
  datatype Asset = Asset(name: string, browserDownloadUrl: string, size: int)

  /** The fields of the release object the service reads. */
  datatype Release = Release(tagName: string, body: string, publishedAt: string, assets: seq<Asset>)

  /** What the endpoint answered: a status code with the decoded body
      (`Failure` when the body is not a release object) and the reset time
      of the rate limit as already rendered "HH:mm" (`None` when the header
      is missing or not a number); or an exception from the connection. */
  datatype FeedResponse =
    | Answered(code: int, payload: Result<Release, string>, resetClock: Option<string>)
    | NetworkFailure(message: string)

  const HttpOk: int := 200
  const HttpForbidden: int := 403
  const HttpNotFound: int := 404

  const RateLimitPrefix: string := "Rate limit exceeded. Try again at "
  const ReleaseNotFound: string := "Release not found. Check repository settings"
  const ApiErrorPrefix: string := "GitHub API error: HTTP "
  const NetworkErrorPrefix: string := "Network error: "
  const ParseErrorPrefix: string := "Failed to parse update info: "

  // ---------------------------------------------------------------------------
  // Version code: the regex \*\*Version Code:\*\*\s*(\d+)
  // ---------------------------------------------------------------------------

  const VersionCodeMarker: string := "**Version Code:**"

  /** Length of the run of `\s` characters starting at `i`. */
  function SpaceRun(s: string, i: nat): (n: nat)
    requires i <= |s|
    ensures i + n <= |s|
    ensures forall k :: i <= k < i + n ==> IsRegexSpace(s[k])
    ensures i + n < |s| ==> !IsRegexSpace(s[i + n])
    decreases |s| - i
  {
    if i < |s| && IsRegexSpace(s[i]) then 1 + SpaceRun(s, i + 1) else 0
  }

  /** Length of the run of `\d` characters starting at `i`. */
  function DigitRun(s: string, i: nat): (n: nat)
    requires i <= |s|
    ensures i + n <= |s|
    ensures AllDigits(s[i..i + n])
    ensures i + n < |s| ==> !IsDigit(s[i + n])
    decreases |s| - i
  {
    if i < |s| && IsDigit(s[i]) then
      var m := DigitRun(s, i + 1);
      assert s[i..i + 1 + m] == [s[i]] + s[i + 1..i + 1 + m];
      1 + m
    else 0
  }

  /** The digits captured by a match of the pattern that starts at `i`, if
      one starts there. The two character classes are disjoint, so the
      greedy `\s*` and `\d+` never need to backtrack. */
  function MatchAt(s: string, i: nat): (r: Option<string>)
    requires i <= |s|
    ensures r.Some? ==> |r.value| > 0 && AllDigits(r.value)
  {
    if !OccursAt(s, VersionCodeMarker, i) then None
    else
      var j := i + |VersionCodeMarker| + SpaceRun(s, i + |VersionCodeMarker|);
      var n := DigitRun(s, j);
      if n == 0 then None else Some(s[j..j + n])
  }

  /** `Regex.find`: the leftmost match at or after `from`. */
  function FirstMatchFrom(s: string, from: nat): (r: Option<string>)
    requires from <= |s|
    ensures r.Some? ==> |r.value| > 0 && AllDigits(r.value)
    decreases |s| - from
  {
    match MatchAt(s, from)
    case Some(digits) => Some(digits)
    case None => if from == |s| then None else FirstMatchFrom(s, from + 1)
  }

  /** The number after the first "**Version Code:**" marker that is followed
      by digits; 1 when there is none or the digits do not fit in an `Int`
      (`toIntOrNull` answers null). */
  function ExtractVersionCode(body: string): (r: int)
    ensures 0 <= r <= IntMax
  {
    match FirstMatchFrom(body, 0)
    case None => 1
    case Some(digits) =>
      var v := DigitsValue(digits);
      if v <= IntMax then v else 1
  }

  /** Without the marker anywhere in the body, the version code is 1. */
  lemma VersionCodeWithoutMarker(body: string)
    requires !Contains(body, VersionCodeMarker)
    ensures ExtractVersionCode(body) == 1
  {
    NoMatchFrom(body, 0);
  }

  lemma {:induction false} NoMatchFrom(s: string, from: nat)
    requires from <= |s|
    requires !Contains(s, VersionCodeMarker)
    ensures FirstMatchFrom(s, from).None?
    decreases |s| - from
  {
    assert !OccursAt(s, VersionCodeMarker, from);
    if from < |s| {
      NoMatchFrom(s, from + 1);
    }
  }

  /** Positions where no match starts can be skipped. */
  lemma {:induction false} SkipNonMatches(s: string, from: nat, to: nat)
    requires from <= to <= |s|
    requires forall k :: from <= k < to ==> MatchAt(s, k).None?
    ensures FirstMatchFrom(s, from) == FirstMatchFrom(s, to)
    decreases |s| - from
  {
    if from < to {
      SkipNonMatches(s, from + 1, to);
    }
  }

  /** The pattern matches nowhere before index `i` of `s`. */
  predicate NoMatchBefore(s: string, i: nat)
    requires i <= |s|
  {
    forall k :: 0 <= k < i ==> MatchAt(s, k).None?
  }

  /** A release body "<p>**Version Code:**<spaces><n><rest>" in which the
      pattern matches nowhere inside `p` (earlier markers not followed by
      digits are allowed) and whose `rest` does not continue the number
      yields `n` when it fits in an `Int`, and 1 when it does not. */
  lemma VersionCodeReadsNumeral(p: string, spaces: string, n: nat, rest: string)
    requires NoMatchBefore(p + VersionCodeMarker + spaces + NatToString(n) + rest, |p|)
    requires forall k :: 0 <= k < |spaces| ==> IsRegexSpace(spaces[k])
    requires |rest| == 0 || !IsDigit(rest[0])
    ensures n <= IntMax ==> ExtractVersionCode(p + VersionCodeMarker + spaces + NatToString(n) + rest) == n
    ensures n > IntMax ==> ExtractVersionCode(p + VersionCodeMarker + spaces + NatToString(n) + rest) == 1
  {
    var numeral := NatToString(n);
    var s := p + VersionCodeMarker + spaces + numeral + rest;
    var i := |p|;
    var j := i + |VersionCodeMarker|;
    var d := j + |spaces|;
    var e := d + |numeral|;
    assert s[..i] == p;
    assert s[i..j] == VersionCodeMarker;
    forall k | j <= k < d
      ensures IsRegexSpace(s[k])
    {
      assert s[k] == spaces[k - j];
    }
    forall k | d <= k < e
      ensures IsDigit(s[k])
    {
      assert s[k] == numeral[k - d];
    }
    if e < |s| {
      assert s[e] == rest[0];
    }
    assert s[d..e] == numeral;
    SkipNonMatches(s, 0, i);
    MatchAfterMarker(s, i, d, e);
    assert FirstMatchFrom(s, 0) == Some(numeral);
  }

  /** In particular, a body whose text before the marker has no asterisk at
      all has no earlier match. */
  lemma NoMatchBeforeAsterisk(s: string, i: nat)
    requires i <= |s|
    requires '*' !in s[..i]
    ensures NoMatchBefore(s, i)
  {
    forall k | 0 <= k < i
      ensures MatchAt(s, k).None?
    {
      assert s[k] == s[..i][k];
    }
  }

  /** A marker at `i`, spaces up to `d` and the digits `s[d..e]` not
      followed by another digit form a match capturing those digits. */
  lemma MatchAfterMarker(s: string, i: nat, d: nat, e: nat)
    requires i + |VersionCodeMarker| <= d < e <= |s|
    requires OccursAt(s, VersionCodeMarker, i)
    requires forall k :: i + |VersionCodeMarker| <= k < d ==> IsRegexSpace(s[k])
    requires forall k :: d <= k < e ==> IsDigit(s[k])
    requires e < |s| ==> !IsDigit(s[e])
    ensures MatchAt(s, i) == Some(s[d..e])
  {
    var j := i + |VersionCodeMarker|;
    assert IsDigit(s[d]);
    SpaceRunOver(s, j, d - j);
    assert j + SpaceRun(s, j) == d;
    DigitRunOver(s, d, e - d);
    assert DigitRun(s, d) == e - d;
  }

  lemma {:induction false} SpaceRunOver(s: string, i: nat, n: nat)
    requires i + n <= |s|
    requires forall k :: i <= k < i + n ==> IsRegexSpace(s[k])
    requires i + n < |s| ==> !IsRegexSpace(s[i + n])
    ensures SpaceRun(s, i) == n
    decreases n
  {
    if n > 0 {
      SpaceRunOver(s, i + 1, n - 1);
    }
  }

  lemma {:induction false} DigitRunOver(s: string, i: nat, n: nat)
    requires i + n <= |s|
    requires forall k :: i <= k < i + n ==> IsDigit(s[k])
    requires i + n < |s| ==> !IsDigit(s[i + n])
    ensures DigitRun(s, i) == n
    decreases n
  {
    if n > 0 {
      DigitRunOver(s, i + 1, n - 1);
    }
  }

  // ---------------------------------------------------------------------------
  // The installable asset
  // ---------------------------------------------------------------------------

  predicate IsApk(a: Asset) {
    EndsWith(a.name, ".apk")
  }

  /** `i` is the first asset whose name ends with ".apk". */
  predicate FirstApkAt(assets: seq<Asset>, i: int) {
    0 <= i < |assets| && IsApk(assets[i]) && forall j :: 0 <= j < i ==> !IsApk(assets[j])
  }

  predicate NoApk(assets: seq<Asset>) {
    forall j :: 0 <= j < |assets| ==> !IsApk(assets[j])
  }

  /** A first ".apk" asset of the tail is the next one of the whole list. */
  lemma FirstApkOfTail(assets: seq<Asset>)
    requires |assets| > 0 && !IsApk(assets[0])
    ensures forall i :: FirstApkAt(assets, i) ==> i > 0 && FirstApkAt(assets[1..], i - 1)
    ensures NoApk(assets[1..]) ==> NoApk(assets)
  {
    forall i | FirstApkAt(assets, i)
      ensures i > 0 && FirstApkAt(assets[1..], i - 1)
    {
      forall j | 0 <= j < i - 1
        ensures !IsApk(assets[1..][j])
      {
        assert assets[1..][j] == assets[j + 1];
      }
    }
    if NoApk(assets[1..]) {
      forall j | 0 < j < |assets|
        ensures !IsApk(assets[j])
      {
        assert assets[j] == assets[1..][j - 1];
      }
    }
  }

  /** `getApkDownloadUrl`: the download URL of the first ".apk" asset, ""
      when there is none. */
  function ApkDownloadUrl(assets: seq<Asset>): (url: string)
    ensures NoApk(assets) ==> url == ""
    ensures forall i :: FirstApkAt(assets, i) ==> url == assets[i].browserDownloadUrl
    decreases |assets|
  {
    if |assets| == 0 then ""
    else if IsApk(assets[0]) then assets[0].browserDownloadUrl
    else
      FirstApkOfTail(assets);
      ApkDownloadUrl(assets[1..])
  }

  /** The size in bytes of the first ".apk" asset, if there is one. */
  function FirstApkSize(assets: seq<Asset>): (size: Option<int>)
    ensures NoApk(assets) ==> size.None?
    ensures forall i :: FirstApkAt(assets, i) ==> size == Some(assets[i].size)
    decreases |assets|
  {
    if |assets| == 0 then None
    else if IsApk(assets[0]) then Some(assets[0].size)
    else
      FirstApkOfTail(assets);
      FirstApkSize(assets[1..])
  }

  /** `getApkFileSize`: the formatted size of the first ".apk" asset,
      "Unknown" when there is none. */
  function ApkFileSize(assets: seq<Asset>): (size: string)
    ensures NoApk(assets) ==> size == "Unknown"
    ensures forall i :: FirstApkAt(assets, i) ==> size == FileSize.Format(assets[i].size)
  {
    match FirstApkSize(assets)
    case None => "Unknown"
    case Some(bytes) => FileSize.Format(bytes)
  }

  /** The URL and the size shown are those of asset `i`, the first
      installable one. */
  predicate DescribesAsset(assets: seq<Asset>, i: int) {
    && FirstApkAt(assets, i)
    && ApkDownloadUrl(assets) == assets[i].browserDownloadUrl
    && ApkFileSize(assets) == FileSize.Format(assets[i].size)
  }

  /** The URL and the size always describe one and the same asset: the
      first installable one. */
  lemma UrlAndSizeDescribeOneAsset(assets: seq<Asset>)
    ensures NoApk(assets) ==> ApkDownloadUrl(assets) == "" && ApkFileSize(assets) == "Unknown"
    ensures !NoApk(assets) ==> exists i :: DescribesAsset(assets, i)
  {
    if !NoApk(assets) {
      var i := FirstIndex(assets, IsApk);
      assert i.Some?;
      assert DescribesAsset(assets, i.value);
    }
  }

  // ---------------------------------------------------------------------------
  // Release notes
  // ---------------------------------------------------------------------------

  const WhatsNewHeader: string := "### What's New:"
  const FeaturesHeader: string := "### Features:"
  const TechnicalDetailsHeader: string := "### Technical Details:"

  function Mentions(pattern: string): string -> bool {
    line => Contains(line, pattern)
  }

  /** A line that opens the next section. */
  predicate IsSectionHeading(line: string) {
    StartsWith(line, "### ") || StartsWith(line, "## ")
  }

  /** Line `i` is the first line containing `pattern`. */
  predicate FirstLineWith(lines: seq<string>, pattern: string, i: nat) {
    i < |lines| && Contains(lines[i], pattern) && forall k :: 0 <= k < i ==> !Contains(lines[k], pattern)
  }

  predicate NoLineWith(lines: seq<string>, pattern: string) {
    forall k :: 0 <= k < |lines| ==> !Contains(lines[k], pattern)
  }

  /** The message of the exception `subList(from, to)` throws when
      `from > to`. */
  function SubListError(from: int, to: int): string {
    "fromIndex(" + IntToString(from) + ") > toIndex(" + IntToString(to) + ")"
  }

  /** `extractReleaseNotes`: the "What's New" section when the body has
      one; otherwise the Features section up to Technical Details when both
      exist; otherwise the text before Technical Details. `Failure` when
      `subList` throws because Technical Details comes before Features. */
  function ExtractReleaseNotes(body: string): Result<string, string> {
    var lines := Split(body, '\n');
    match FirstIndex(lines, Mentions(WhatsNewHeader))
    case Some(start) => Success(Trim(Join(lines[start + 1..SectionEnd(lines, start + 1)], "\n")))
    case None => FallbackNotes(body, lines)
  }

  /** Where the section whose text starts at line `from` ends: the first
      heading line at or after `from`, or the end of the body. */
  function SectionEnd(lines: seq<string>, from: nat): (end: nat)
    requires from <= |lines|
    ensures from <= end <= |lines|
    ensures forall k :: from <= k < end ==> !IsSectionHeading(lines[k])
    ensures end < |lines| ==> IsSectionHeading(lines[end])
  {
    match FirstIndex(lines[from..], IsSectionHeading)
    case Some(e) => from + e
    case None => |lines|
  }

  /** The notes of a body without a "What's New" line. */
  function FallbackNotes(body: string, lines: seq<string>): Result<string, string> {
    var features := FirstIndex(lines, Mentions(FeaturesHeader));
    var technical := FirstIndex(lines, Mentions(TechnicalDetailsHeader));
    if features.Some? && technical.Some? then
      if features.value <= technical.value then
        Success(Trim(Join(lines[features.value..technical.value], "\n")))
      else Failure(SubListError(features.value, technical.value))
    else Success(Trim(SubstringBefore(body, TechnicalDetailsHeader)))
  }

  /** The three conditions of `SectionEnd` determine it. */
  lemma SectionEndUnique(lines: seq<string>, from: nat, end: nat)
    requires from <= end <= |lines|
    requires forall k :: from <= k < end ==> !IsSectionHeading(lines[k])
    requires end < |lines| ==> IsSectionHeading(lines[end])
    ensures SectionEnd(lines, from) == end
  {
  }

  lemma FirstIndexIsFirstLine(lines: seq<string>, pattern: string, i: nat)
    requires FirstLineWith(lines, pattern, i)
    ensures FirstIndex(lines, Mentions(pattern)) == Some(i)
  {
    var r := FirstIndex(lines, Mentions(pattern));
    assert Mentions(pattern)(lines[i]);
  }

  lemma FirstIndexNoLine(lines: seq<string>, pattern: string)
    requires NoLineWith(lines, pattern)
    ensures FirstIndex(lines, Mentions(pattern)) == None
  {
  }

  /** With a "What's New" line, the notes are the lines strictly after the
      first such line up to the next section heading (or the end), joined
      and trimmed; the header line itself is never part of them. */
  lemma ReleaseNotesFromWhatsNew(body: string, start: nat, end: nat)
    requires FirstLineWith(Split(body, '\n'), WhatsNewHeader, start)
    requires start < end <= |Split(body, '\n')|
    requires forall k :: start < k < end ==> !IsSectionHeading(Split(body, '\n')[k])
    requires end < |Split(body, '\n')| ==> IsSectionHeading(Split(body, '\n')[end])
    ensures ExtractReleaseNotes(body) == Success(Trim(Join(Split(body, '\n')[start + 1..end], "\n")))
  {
    var lines := Split(body, '\n');
    FirstIndexIsFirstLine(lines, WhatsNewHeader, start);
    SectionEndUnique(lines, start + 1, end);
  }

  /** Without "What's New", when both markers occur and Features comes
      first, the notes run from the Features line (included) to the
      Technical Details line (excluded). */
  lemma ReleaseNotesFromFeatures(body: string, features: nat, technical: nat)
    requires NoLineWith(Split(body, '\n'), WhatsNewHeader)
    requires FirstLineWith(Split(body, '\n'), FeaturesHeader, features)
    requires FirstLineWith(Split(body, '\n'), TechnicalDetailsHeader, technical)
    requires features <= technical
    ensures ExtractReleaseNotes(body) == Success(Trim(Join(Split(body, '\n')[features..technical], "\n")))
  {
    var lines := Split(body, '\n');
    FirstIndexNoLine(lines, WhatsNewHeader);
    FirstIndexIsFirstLine(lines, FeaturesHeader, features);
    FirstIndexIsFirstLine(lines, TechnicalDetailsHeader, technical);
  }

  /** When Technical Details comes before Features, `subList` throws. */
  lemma ReleaseNotesMisorderedFail(body: string, features: nat, technical: nat)
    requires NoLineWith(Split(body, '\n'), WhatsNewHeader)
    requires FirstLineWith(Split(body, '\n'), FeaturesHeader, features)
    requires FirstLineWith(Split(body, '\n'), TechnicalDetailsHeader, technical)
    requires technical < features
    ensures ExtractReleaseNotes(body) == Failure(SubListError(features, technical))
  {
    var lines := Split(body, '\n');
    FirstIndexNoLine(lines, WhatsNewHeader);
    FirstIndexIsFirstLine(lines, FeaturesHeader, features);
    FirstIndexIsFirstLine(lines, TechnicalDetailsHeader, technical);
  }

  /** Otherwise the notes are the trimmed text before the first
      "### Technical Details:" (all of the body when it has none). */
  lemma ReleaseNotesBeforeTechnicalDetails(body: string)
    requires NoLineWith(Split(body, '\n'), WhatsNewHeader)
    requires NoLineWith(Split(body, '\n'), FeaturesHeader) || NoLineWith(Split(body, '\n'), TechnicalDetailsHeader)
    ensures ExtractReleaseNotes(body) == Success(Trim(SubstringBefore(body, TechnicalDetailsHeader)))
  {
    var lines := Split(body, '\n');
    FirstIndexNoLine(lines, WhatsNewHeader);
    if NoLineWith(lines, FeaturesHeader) {
      FirstIndexNoLine(lines, FeaturesHeader);
    } else {
      FirstIndexNoLine(lines, TechnicalDetailsHeader);
    }
  }

  // ---------------------------------------------------------------------------
  // Building the response
  // ---------------------------------------------------------------------------

  /** Kotlin's `Int` subtraction, which wraps around modulo 2^32. */
  function SubInt32(a: Int32, b: Int32): (r: Int32)
    ensures -0x8000_0000 <= a - b <= 0x7FFF_FFFF ==> r == a - b
  {
    ((a - b + 0x8000_0000) % 0x1_0000_0000) - 0x8000_0000
  }

  /** `isForceUpdate`: more than three versions behind. */
  function IsForceUpdate(current: Int32, latest: Int32): bool {
    SubInt32(latest, current) > 3
  }

  /** Version codes are never negative on Android, and then the difference
      cannot wrap: a forced update is exactly a gap of four or more. */
  lemma ForceUpdateIffGapAboveThree(current: Int32, latest: Int32)
    requires current >= 0 && latest >= 0
    ensures IsForceUpdate(current, latest) <==> latest - current > 3
  {
  }

  /** `info` announces `release` to an installation at version `current`:
      the version name is the tag without its "v", the code is the one in
      the body and is newer, the notes, URL and size are read from the
      body and assets, and the update is forced exactly when (for a
      non-negative installed code) it is more than three versions ahead. */
  predicate Announces(info: UpdateInfo, release: Release, current: Int32, formatDate: string -> string) {
    && info.latestVersion == RemovePrefix(release.tagName, "v")
    && info.latestVersionCode == ExtractVersionCode(release.body)
    && info.latestVersionCode > current
    && ExtractReleaseNotes(release.body) == Success(info.releaseNotes)
    && info.downloadUrl == ApkDownloadUrl(release.assets)
    && info.fileSize == ApkFileSize(release.assets)
    && (current >= 0 ==> (info.isForceUpdate <==> info.latestVersionCode - current > 3))
    && info.minSupportedVersion == 1
    && info.releaseDate == formatDate(release.publishedAt)
  }

  /** `parseUpdateResponse`: the release record decoded from a 200 answer
      (`Failure` when the body is not one), compared against the installed
      version code. `formatDate` renders `published_at` for display. */
  function ParseUpdateResponse(payload: Result<Release, string>, current: Int32, formatDate: string -> string): (r: UpdateCheckResponse)
    ensures WellFormed(r)
    ensures payload.Failure? ==> r == Failed(ParseErrorPrefix + payload.error)
    ensures payload.Success? ==> r == ParseRelease(payload.value, current, formatDate)
  {
    match payload
    case Failure(message) => Failed(ParseErrorPrefix + message)
    case Success(release) => ParseRelease(release, current, formatDate)
  }

  /** The body of `parseUpdateResponse` once the release object is decoded:
      an update exactly when the body's version code is newer; an error
      when reading the notes throws. */
  function ParseRelease(release: Release, current: Int32, formatDate: string -> string): (r: UpdateCheckResponse)
    ensures WellFormed(r)
    ensures ExtractReleaseNotes(release.body).Failure? ==>
      r == Failed(ParseErrorPrefix + ExtractReleaseNotes(release.body).error)
    ensures ExtractReleaseNotes(release.body).Success? ==>
      r.error.None? && (r.hasUpdate <==> ExtractVersionCode(release.body) > current)
    ensures r.hasUpdate ==> Announces(r.updateInfo.value, release, current, formatDate)
  {
    var versionName := RemovePrefix(release.tagName, "v");
    var versionCode: Int32 := ExtractVersionCode(release.body);
    var downloadUrl := ApkDownloadUrl(release.assets);
    match ExtractReleaseNotes(release.body)
    case Failure(message) => Failed(ParseErrorPrefix + message)
    case Success(notes) =>
      var fileSize := ApkFileSize(release.assets);
      if versionCode > current then
        UpdateCheckResponse(true, Some(UpdateInfo(versionName, versionCode, downloadUrl, notes,
                                                  IsForceUpdate(current, versionCode), 1,
                                                  formatDate(release.publishedAt), fileSize)), None)
      else NoUpdate()
  }

  /** `checkForUpdates`: maps the endpoint's answer to a response. Only a
      200 answer can announce an update; every other status and every
      exception produces an error and no release details. */
  function CheckForUpdates(response: FeedResponse, current: Int32, formatDate: string -> string): (r: UpdateCheckResponse)
    ensures WellFormed(r)
    ensures response.Answered? && response.code == HttpOk ==>
      r == ParseUpdateResponse(response.payload, current, formatDate)
    ensures response.Answered? && response.code == HttpForbidden ==>
      && !r.hasUpdate && r.error.Some?
      && StartsWith(r.error.value, "Rate limit exceeded")
      && r.error.value == RateLimitPrefix + response.resetClock.GetOr("in a while")
    ensures response.Answered? && response.code == HttpNotFound ==>
      r == Failed(ReleaseNotFound)
    ensures response.Answered? && response.code !in {HttpOk, HttpForbidden, HttpNotFound} ==>
      r == Failed(ApiErrorPrefix + IntToString(response.code))
    ensures response.NetworkFailure? ==> r == Failed(NetworkErrorPrefix + response.message)
    ensures r.hasUpdate ==> response.Answered? && response.code == HttpOk
  {
    match response
    case NetworkFailure(message) => Failed(NetworkErrorPrefix + message)
    case Answered(code, payload, resetClock) =>
      if code == HttpOk then ParseUpdateResponse(payload, current, formatDate)
      else if code == HttpForbidden then
        var message := RateLimitPrefix + resetClock.GetOr("in a while");
        assert message[..|"Rate limit exceeded"|] == "Rate limit exceeded";
        Failed(message)
      else if code == HttpNotFound then Failed(ReleaseNotFound)
      else Failed(ApiErrorPrefix + IntToString(code))
  }
}
