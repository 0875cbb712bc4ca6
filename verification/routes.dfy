/** The request handlers of the update server (`lib/routes.js`): each one a
    loop-free decision over a few request fields and the release snapshot,
    ending in one terminal response. */
module Routes {

  import opened Wrappers
  import opened Text
  import opened Http
  import opened Releases
  import Utf8
  import SemVer

  /** The collaborators the handlers call but this model does not define:
      the platform alias table (`checkAlias`) and the version parser behind
      `semver.valid` and `semver.compare`. */
  datatype Env = Env(
    checkAlias: string -> Option<string>,
    parseVersion: string -> Option<SemVer.Version>)

  /** What the user-agent parser reports about the client's OS. */
  datatype UserAgent = UserAgent(isMac: bool, isWindows: bool)

  const DownloadUnavailable: string := "No download available for your platform!"
  const PlatformDownloadUnavailable: string := "No download available for your platform"
  const PlatformNotValid: string := "The specified platform is not valid"
  const VersionNotSemVer: string := "The specified version is not SemVer-compatible"

  // ---------------------------------------------------------------------------
  // Collaborators as the handlers see them

  /** `semver.valid(v)` is truthy: the version parses. */
  predicate ValidVersion(env: Env, v: string) {
    env.parseVersion(v).Some?
  }

  /** `semver.compare(a, b)`: precedence of the two parsed versions, or `None`
      when either fails to parse (the library throws). */
  function CompareVersions(env: Env, a: string, b: string): (r: Option<int>)
    ensures r.Some? <==> ValidVersion(env, a) && ValidVersion(env, b)
    ensures r.Some? ==> SemVer.IsOrdering(r.value)
    ensures r.Some? ==>
              (r.value == 0 <==> env.parseVersion(a).value.WithoutBuild() == env.parseVersion(b).value.WithoutBuild())
  {
    match (env.parseVersion(a), env.parseVersion(b))
    case (Some(va), Some(vb)) =>
      SemVer.CompareIsOrdering(va, vb);
      SemVer.CompareZeroIff(va, vb);
      Some(SemVer.Compare(va, vb))
    case _ => None
  }

  /** `checkAlias(token)` followed by the `!platform` test: a canonical key,
      or `None` for anything falsy (no entry, or an empty key). */
  function ResolvePlatform(env: Env, token: string): (r: Option<string>)
    ensures r.Some? <==> env.checkAlias(token).Some? && env.checkAlias(token).value != ""
    ensures r.Some? ==> r.value == env.checkAlias(token).value
  {
    match env.checkAlias(token)
    case Some(key) => if key != "" then Some(key) else None
    case None => None
  }

  // ---------------------------------------------------------------------------
  // GET /download

  /** The platform key for a signal-based download (lib/routes.js:24-32):
      the Squirrel.Mac update archive for a Mac updater, the disk image for a
      Mac browser, the MSI installer for Windows; the Mac branch comes first. */
  function ChoosePlatform(ua: UserAgent, update: QueryValue): (r: Option<string>)
    ensures r == Some("darwin") <==> ua.isMac && IsTruthy(update)
    ensures r == Some("dmg") <==> ua.isMac && !IsTruthy(update)
    ensures r == Some("msi") <==> !ua.isMac && ua.isWindows
    ensures r == None <==> !ua.isMac && !ua.isWindows
  {
    if ua.isMac && IsTruthy(update) then Some("darwin")
    else if ua.isMac && !IsTruthy(update) then Some("dmg")
    else if ua.isWindows then Some("msi")
    else None
  }

  /** `download`: redirect to the chosen platform's asset, or 404. */
  function Download(ua: UserAgent, update: QueryValue, latest: Snapshot): (r: Response)
    ensures r.Found? || r == NotFound(DownloadUnavailable)
    ensures r.Found? <==> ChoosePlatform(ua, update).Some?
                          && AssetFor(latest, ChoosePlatform(ua, update).value).Some?
    ensures r.Found? ==> r.location == latest.platforms.value[ChoosePlatform(ua, update).value].url
  {
    match ChoosePlatform(ua, update)
    case None => NotFound(DownloadUnavailable)
    case Some(platform) =>
      match AssetFor(latest, platform)
      case None => NotFound(DownloadUnavailable)
      case Some(asset) => Found(asset.url)
  }

  // ---------------------------------------------------------------------------
  // GET /download/:platform

  /** The two rewrites applied to the path token before alias resolution when
      the request is not an update poll: `mac` to `dmg`, `mac_arm64` to
      `dmg_arm64`. */
  function RewriteMac(token: string, update: QueryValue): (t: string)
    ensures IsTruthy(update) ==> t == token
    ensures t != token <==> !IsTruthy(update) && (token == "mac" || token == "mac_arm64")
    ensures token == "mac" && t != token ==> t == "dmg"
    ensures token == "mac_arm64" && t != token ==> t == "dmg_arm64"
  {
    var afterMac := if token == "mac" && !IsTruthy(update) then "dmg" else token;
    if afterMac == "mac_arm64" && !IsTruthy(update) then "dmg_arm64" else afterMac
  }

  /** `downloadPlatform`: rewrite, resolve the alias (500 when that fails),
      then redirect to the asset or answer 404. */
  function DownloadPlatform(env: Env, token: string, update: QueryValue, latest: Snapshot): (r: Response)
    ensures r.Found? || r == PlainServerError(PlatformNotValid) || r == NotFound(PlatformDownloadUnavailable)
    ensures r.PlainServerError? <==> ResolvePlatform(env, RewriteMac(token, update)).None?
    ensures r.Found? <==>
      var key := ResolvePlatform(env, RewriteMac(token, update));
      key.Some? && AssetFor(latest, key.value).Some?
    ensures r.Found? ==>
      r.location == latest.platforms.value[ResolvePlatform(env, RewriteMac(token, update)).value].url
  {
    match ResolvePlatform(env, RewriteMac(token, update))
    case None => PlainServerError(PlatformNotValid)
    case Some(key) =>
      match AssetFor(latest, key)
      case None => NotFound(PlatformDownloadUnavailable)
      case Some(asset) => Found(asset.url)
  }

  // ---------------------------------------------------------------------------
  // GET /update/:platform/:version

  /** `update`, the version gate: validate the version, resolve the platform,
      answer 204 when there is no asset, then offer the latest release exactly
      when its precedence differs from the client's, in either direction. */
  function Update(env: Env, platformName: string, version: string, latest: Snapshot): (r: Response)
    ensures r.UpdateAvailable? || r.NoContent? || r.JsonServerError? || r.UncaughtError?
    ensures r == JsonServerError(VersionInvalid, VersionNotSemVer) <==> !ValidVersion(env, version)
    ensures r == JsonServerError(InvalidPlatform, PlatformNotValid) <==>
              ValidVersion(env, version) && ResolvePlatform(env, platformName).None?
    ensures r.UpdateAvailable? ==>
              && ValidVersion(env, version)
              && ResolvePlatform(env, platformName).Some?
              && AssetFor(latest, ResolvePlatform(env, platformName).value).Some?
              && CompareVersions(env, latest.version, version).Some?
              && CompareVersions(env, latest.version, version).value != 0
              && r.name == latest.version && r.notes == latest.notes && r.pubDate == latest.pubDate
              && r.url == latest.platforms.value[ResolvePlatform(env, platformName).value].url
  {
    if !ValidVersion(env, version) then JsonServerError(VersionInvalid, VersionNotSemVer)
    else match ResolvePlatform(env, platformName)
      case None => JsonServerError(InvalidPlatform, PlatformNotValid)
      case Some(key) =>
        match AssetFor(latest, key)
        case None => NoContent
        case Some(asset) =>
          match CompareVersions(env, latest.version, version)
          case None => UncaughtError
          case Some(c) =>
            if c != 0 then UpdateAvailable(latest.version, latest.notes, latest.pubDate, asset.url)
            else NoContent
  }

  // ---------------------------------------------------------------------------
  // GET /update/win32/:filename

  /** The lower-case shapes of a Squirrel.Windows file request. */
  const ReleasesPrefix: string := "releases"
  const NupkgSuffix: string := "nupkg"
  const NupkgPlatform: string := "nupkg"

  /** `squirrelWindows`: a file name starting with `releases` (in any case)
      gets the `RELEASES` manifest as bytes, one ending in `nupkg` is sent to
      the `nupkg` asset, anything else is refused; missing data gives 204. */
  function SquirrelWindows(filename: string, latest: Snapshot): (r: Response)
    ensures r.OctetStream? || r.Found? || r.NoContent? || r.BadRequest?
    ensures r.OctetStream? ==> r.contentLength == |r.body|
    ensures r.OctetStream? ==> ReleasesManifest(latest).Some? && Utf8.Decode(r.body) == ReleasesManifest(latest)
    ensures r.OctetStream? ==> r.contentLength == |Utf8.Encode(ReleasesManifest(latest).value)|
    ensures r.BadRequest? <==>
              !StartsWith(ToLower(filename), ReleasesPrefix) && !EndsWith(ToLower(filename), NupkgSuffix)
  {
    var name := ToLower(filename);
    if StartsWith(name, ReleasesPrefix) then
      match ReleasesManifest(latest)
      case None => NoContent
      case Some(content) =>
        var body := Utf8.Encode(content);
        Utf8.DecodeEncode(content);
        OctetStream(body, |body|)
    else if EndsWith(name, NupkgSuffix) then
      match AssetFor(latest, NupkgPlatform)
      case None => NoContent
      case Some(asset) => Found(asset.url)
    else BadRequest
  }
}
