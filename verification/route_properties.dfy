/** Properties of the route handlers that relate several calls, or hold for
    every snapshot and collaborator. */
module RouteProperties {

  import opened Wrappers
  import opened Text
  import opened Http
  import opened Releases
  import opened Routes
  import SemVer

  // ---------------------------------------------------------------------------
  // The `update` query flag

  /** `?update=` (or a bare `?update`) is the same as no flag at all, on both
      download routes. */
  lemma EmptyUpdateFlagIsNoUpdate(env: Env, ua: UserAgent, token: string, latest: Snapshot)
    ensures Download(ua, One(""), latest) == Download(ua, Missing, latest)
    ensures DownloadPlatform(env, token, One(""), latest) == DownloadPlatform(env, token, Missing, latest)
  {
  }

  // ---------------------------------------------------------------------------
  // GET /download

  /** A Mac client is never sent the Windows installer, even when the
      user-agent also claims Windows. */
  lemma MacBeforeWindows(update: QueryValue, latest: Snapshot)
    ensures var r := Download(UserAgent(true, true), update, latest);
      r.Found? ==> latest.platforms.value[if IsTruthy(update) then "darwin" else "dmg"].url == r.location
  {
  }

  // ---------------------------------------------------------------------------
  // GET /download/:platform

  /** For a browser download, `mac` and `mac_arm64` are served exactly as
      `dmg` and `dmg_arm64` are. */
  lemma MacTokensServeDiskImages(env: Env, update: QueryValue, latest: Snapshot)
    requires !IsTruthy(update)
    ensures DownloadPlatform(env, "mac", update, latest) == DownloadPlatform(env, "dmg", update, latest)
    ensures DownloadPlatform(env, "mac_arm64", update, latest)
         == DownloadPlatform(env, "dmg_arm64", update, latest)
  {
  }

  /** The rewrite happens before alias resolution: for a browser download of
      `mac`, what the alias table says about `mac` itself is never consulted. */
  lemma RewriteBeforeAlias(env1: Env, env2: Env, update: QueryValue, latest: Snapshot)
    requires !IsTruthy(update)
    requires env1.checkAlias("dmg") == env2.checkAlias("dmg")
    ensures DownloadPlatform(env1, "mac", update, latest) == DownloadPlatform(env2, "mac", update, latest)
  {
  }

  /** An update poll skips the rewrite: the token goes to the alias table as sent. */
  lemma UpdatePollResolvesTokenAsSent(env: Env, token: string, update: QueryValue, latest: Snapshot)
    requires IsTruthy(update)
    ensures DownloadPlatform(env, token, update, latest).PlainServerError?
        <==> ResolvePlatform(env, token).None?
    ensures DownloadPlatform(env, token, update, latest).Found?
        <==> ResolvePlatform(env, token).Some? && AssetFor(latest, ResolvePlatform(env, token).value).Some?
  {
  }

  // ---------------------------------------------------------------------------
  // GET /update/:platform/:version

  /** `semver.compare` is antisymmetric: swapping the two versions negates
      the result, and both are defined together. */
  lemma CompareVersionsAntisymmetric(env: Env, a: string, b: string)
    ensures CompareVersions(env, a, b).Some? <==> CompareVersions(env, b, a).Some?
    ensures CompareVersions(env, a, b).Some? ==>
              CompareVersions(env, b, a).value == -CompareVersions(env, a, b).value
  {
    if CompareVersions(env, a, b).Some? {
      SemVer.CompareAntisymmetric(env.parseVersion(a).value, env.parseVersion(b).value);
    }
  }

  /** An invalid version is refused whatever the platform and the snapshot:
      the version check comes first. */
  lemma InvalidVersionAlwaysRefused(env: Env, version: string)
    requires !ValidVersion(env, version)
    ensures forall platform, latest :: Update(env, platform, version, latest)
                                       == JsonServerError(VersionInvalid, VersionNotSemVer)
  {
  }

  /** A valid version with an unknown platform is refused whatever the snapshot. */
  lemma InvalidPlatformAlwaysRefused(env: Env, platform: string, version: string)
    requires ValidVersion(env, version) && ResolvePlatform(env, platform).None?
    ensures forall latest :: Update(env, platform, version, latest)
                             == JsonServerError(InvalidPlatform, PlatformNotValid)
  {
  }

  /** With no asset for the platform the answer is 204 before any version is
      compared: it holds for every `latest.version`, parsable or not. */
  lemma NoAssetMeansNoContent(env: Env, platform: string, version: string, latest: Snapshot)
    requires ValidVersion(env, version) && ResolvePlatform(env, platform).Some?
    requires AssetFor(latest, ResolvePlatform(env, platform).value).None?
    ensures forall v :: Update(env, platform, version, latest.(version := v)) == NoContent
  {
  }

  /** Past the checks, the release is offered exactly when its precedence
      differs from the client's, in either direction, and 204 is the answer
      exactly when they are equal. */
  lemma OfferedIffPrecedenceDiffers(env: Env, platform: string, version: string, latest: Snapshot)
    requires ValidVersion(env, version) && ValidVersion(env, latest.version)
    requires ResolvePlatform(env, platform).Some?
    requires AssetFor(latest, ResolvePlatform(env, platform).value).Some?
    ensures var c := SemVer.Compare(env.parseVersion(latest.version).value, env.parseVersion(version).value);
      var r := Update(env, platform, version, latest);
      && (r.UpdateAvailable? <==> c != 0)
      && (r == NoContent <==> c == 0)
      && (c < 0 ==> r.UpdateAvailable? && r.name == latest.version)
  {
  }

  /** The offer itself: the snapshot's version, notes and publish date, and
      the url of the resolved platform's asset. */
  lemma OfferContents(env: Env, platform: string, version: string, latest: Snapshot,
                      key: string, client: SemVer.Version, server: SemVer.Version)
    requires env.parseVersion(version) == Some(client) && env.parseVersion(latest.version) == Some(server)
    requires ResolvePlatform(env, platform) == Some(key) && AssetFor(latest, key).Some?
    requires SemVer.Compare(server, client) != 0
    ensures Update(env, platform, version, latest)
         == UpdateAvailable(latest.version, latest.notes, latest.pubDate, latest.platforms.value[key].url)
  {
  }

  /** Equal precedence past the checks is a 204. */
  lemma SamePrecedenceIsNoContent(env: Env, platform: string, version: string, latest: Snapshot,
                                  key: string, client: SemVer.Version, server: SemVer.Version)
    requires env.parseVersion(version) == Some(client) && env.parseVersion(latest.version) == Some(server)
    requires ResolvePlatform(env, platform) == Some(key) && AssetFor(latest, key).Some?
    requires SemVer.Compare(server, client) == 0
    ensures Update(env, platform, version, latest) == NoContent
  {
  }

  /** A snapshot whose own version does not parse makes `semver.compare`
      throw once the checks before it have passed. */
  lemma UnparsableLatestVersionThrows(env: Env, platform: string, version: string, latest: Snapshot)
    requires ValidVersion(env, version) && !ValidVersion(env, latest.version)
    requires ResolvePlatform(env, platform).Some?
    requires AssetFor(latest, ResolvePlatform(env, platform).value).Some?
    ensures Update(env, platform, version, latest) == UncaughtError
  {
  }

  // ---------------------------------------------------------------------------
  // GET /update/win32/:filename

  /** The dispatch ignores the case of the file name. */
  lemma SquirrelIgnoresCase(filename: string, latest: Snapshot)
    ensures SquirrelWindows(ToLower(filename), latest) == SquirrelWindows(filename, latest)
  {
    ToLowerIdempotent(filename);
  }

  /** A `releases` prefix wins over a `nupkg` suffix: such a request is never
      redirected, and gets 204 exactly when there is no usable manifest. */
  lemma ReleasesPrefixWins(filename: string, latest: Snapshot)
    requires StartsWith(ToLower(filename), ReleasesPrefix)
    ensures !SquirrelWindows(filename, latest).Found?
    ensures SquirrelWindows(filename, latest) == NoContent <==> ReleasesManifest(latest).None?
  {
  }

  /** A `nupkg` request is redirected to the `nupkg` asset, or gets 204 without one. */
  lemma NupkgRedirects(filename: string, latest: Snapshot)
    requires !StartsWith(ToLower(filename), ReleasesPrefix) && EndsWith(ToLower(filename), NupkgSuffix)
    ensures var r := SquirrelWindows(filename, latest);
      && (r.Found? <==> AssetFor(latest, NupkgPlatform).Some?)
      && (r.Found? ==> r.location == latest.platforms.value[NupkgPlatform].url)
      && (!r.Found? ==> r == NoContent)
  {
  }
}
