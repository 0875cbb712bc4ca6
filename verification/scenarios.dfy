/** Concrete requests against a concrete snapshot, with the strict SemVer
    reading of `semver.valid` / `semver.compare`.

    Literal version and file-name texts are passed in as parameters pinned
    by a `requires s == "..."` rather than written inline: with an inline
    literal, the verifier unfolds the recursive reader and `ToLower` over the
    whole literal at every mention, which makes these small proofs costly. */
module Scenarios {

  import opened Wrappers
  import opened Text
  import opened Http
  import opened Releases
  import opened Routes
  import opened SemVer
  import opened SemVerSyntax
  import opened RouteProperties

  /** The handlers' collaborators with the strict version grammar: every
      well-formed version is read back from its text, and every text
      `semver.valid` accepts is exactly the text of a well-formed version. */
  function StrictEnv(aliases: string -> Option<string>): (env: Env)
    ensures env.checkAlias == aliases
    ensures forall v :: WellFormed(v) ==> env.parseVersion(Format(v)) == Some(v)
    ensures forall s :: ValidVersion(env, s) ==>
              WellFormed(env.parseVersion(s).value) && Format(env.parseVersion(s).value) == s
  {
    FormatParseAll();
    ParseFormatAll();
    Env(aliases, Parse)
  }

  // ---------------------------------------------------------------------------
  // Reading concrete version strings

  lemma Digit(n: nat)
    requires n < 10
    ensures NatToString(n) == [('0' as int + n) as char]
  {
  }

  /** The text of a one-digit `a.b.c`. */
  lemma SmallCore(a: nat, b: nat, c: nat)
    requires a < 10 && b < 10 && c < 10
    ensures MainText(Version(a, b, c, [], []))
         == [('0' as int + a) as char, '.', ('0' as int + b) as char, '.', ('0' as int + c) as char]
  {
    Digit(a);
    Digit(b);
    Digit(c);
    var parts := [NatToString(a), NatToString(b), NatToString(c)];
    assert parts[1..][1..] == [NatToString(c)];
    assert Join(parts[1..][1..], '.') == NatToString(c);
    assert Join(parts[1..], '.') == NatToString(b) + ['.'] + NatToString(c);
  }

  /** A one-digit release version reads as itself. */
  lemma ParseSmallRelease(s: string, a: nat, b: nat, c: nat)
    requires a < 10 && b < 10 && c < 10
    requires s == [('0' as int + a) as char, '.', ('0' as int + b) as char, '.', ('0' as int + c) as char]
    ensures Parse(s) == Some(Version(a, b, c, [], []))
  {
    SmallCore(a, b, c);
    assert Format(Version(a, b, c, [], [])) == MainText(Version(a, b, c, [], []));
    FormatParse(Version(a, b, c, [], []));
  }

  lemma Parse100(s: string)
    requires s == "1.0.0"
    ensures Parse(s) == Some(Version(1, 0, 0, [], []))
  {
    ParseSmallRelease(s, 1, 0, 0);
  }

  lemma Parse120(s: string)
    requires s == "1.2.0"
    ensures Parse(s) == Some(Version(1, 2, 0, [], []))
  {
    ParseSmallRelease(s, 1, 2, 0);
  }

  lemma Parse130(s: string)
    requires s == "1.3.0"
    ensures Parse(s) == Some(Version(1, 3, 0, [], []))
  {
    ParseSmallRelease(s, 1, 3, 0);
  }

  lemma Parse200(s: string)
    requires s == "2.0.0"
    ensures Parse(s) == Some(Version(2, 0, 0, [], []))
  {
    ParseSmallRelease(s, 2, 0, 0);
  }

  lemma BuildJoin(build: seq<string>)
    requires build == ["build", "7"]
    ensures Join(build, '.') == "build.7"
  {
    assert build[1..] == ["7"];
  }

  lemma FormatWithBuildMetadata(s: string)
    requires s == "1.2.0+build.7"
    ensures Format(Version(1, 2, 0, [], ["build", "7"])) == s
  {
    var v := Version(1, 2, 0, [], ["build", "7"]);
    SmallCore(1, 2, 0);
    assert MainText(v) == MainText(Version(1, 2, 0, [], []));
    BuildJoin(v.build);
    FormatFromPieces(v, "1.2.0", "build.7", s);
  }

  /** A version with build metadata is printed as its main text, `+`, and the joined identifiers. */
  lemma FormatFromPieces(v: Version, main: string, meta: string, s: string)
    requires v.build != [] && MainText(v) == main && Join(v.build, '.') == meta
    requires s == main + ['+'] + meta
    ensures Format(v) == s
  {
    FormatWithBuild(v);
  }

  /** Build metadata is read as dot-separated identifiers after the `+`. */
  lemma ParseWithBuildMetadata(s: string)
    requires s == "1.2.0+build.7"
    ensures Parse(s) == Some(Version(1, 2, 0, [], ["build", "7"]))
  {
    var v := Version(1, 2, 0, [], ["build", "7"]);
    FormatWithBuildMetadata(s);
    assert IsBuildIdentifier(v.build[0]) && IsBuildIdentifier(v.build[1]);
    FormatParse(v);
  }

  /** "not-a-version" is refused: it does not start with a digit. */
  lemma NotAVersion()
    ensures !Valid("not-a-version")
  {
    if Valid("not-a-version") {
      ValidStartsWithDigit("not-a-version");
    }
  }

  // ---------------------------------------------------------------------------
  // The version gate on concrete versions

  /** An alias table that knows `msi` as itself. */
  predicate KnowsMsi(aliases: string -> Option<string>) {
    aliases("msi") == Some("msi")
  }

  function WindowsOnly(version: string): Snapshot {
    Snapshot(version, "notes", "2020-01-01", Some(map["msi" := Asset("https://x/win.msi")]), None)
  }

  /** A client ahead of the server is moved back to the server's release. */
  lemma DowngradeIsOffered(aliases: string -> Option<string>, client: string, server: string)
    requires KnowsMsi(aliases) && client == "1.3.0" && server == "1.2.0"
    ensures Update(StrictEnv(aliases), "msi", client, WindowsOnly(server))
         == UpdateAvailable(server, "notes", "2020-01-01", "https://x/win.msi")
  {
    Parse130(client);
    Parse120(server);
    OfferContents(StrictEnv(aliases), "msi", client, WindowsOnly(server), "msi",
                  Version(1, 3, 0, [], []), Version(1, 2, 0, [], []));
  }

  /** A client on the server's release gets 204. */
  lemma SameVersionIsNoContent(aliases: string -> Option<string>, version: string)
    requires KnowsMsi(aliases) && version == "1.2.0"
    ensures Update(StrictEnv(aliases), "msi", version, WindowsOnly(version)) == NoContent
  {
    Parse120(version);
    SamePrecedenceIsNoContent(StrictEnv(aliases), "msi", version, WindowsOnly(version), "msi",
                              Version(1, 2, 0, [], []), Version(1, 2, 0, [], []));
  }

  /** Build metadata plays no part: a release differing from the client only
      there ("1.2.0+build.7" against "1.2.0") is not offered, although the
      two strings differ. */
  lemma BuildMetadataIsNotAnUpdate(aliases: string -> Option<string>, client: string, server: string)
    requires KnowsMsi(aliases) && client == "1.2.0" && server == "1.2.0+build.7"
    ensures client != server
    ensures Update(StrictEnv(aliases), "msi", client, WindowsOnly(server)) == NoContent
  {
    Parse120(client);
    ParseWithBuildMetadata(server);
    var latest := Version(1, 2, 0, [], ["build", "7"]);
    CompareZeroIff(latest, Version(1, 2, 0, [], []));
    SamePrecedenceIsNoContent(StrictEnv(aliases), "msi", client, WindowsOnly(server), "msi",
                              Version(1, 2, 0, [], []), latest);
  }

  /** A malformed version is refused before anything else is looked at. */
  lemma MalformedVersionRefused(aliases: string -> Option<string>, platform: string, latest: Snapshot)
    ensures Update(StrictEnv(aliases), platform, "not-a-version", latest)
         == JsonServerError(VersionInvalid, VersionNotSemVer)
  {
    NotAVersion();
  }

  // ---------------------------------------------------------------------------
  // One snapshot, several requests

  /** An alias table that knows the canonical keys as themselves. */
  predicate KnowsCanonicalKeys(aliases: string -> Option<string>) {
    && aliases("dmg") == Some("dmg")
    && aliases("dmg_arm64") == Some("dmg_arm64")
    && aliases("msi") == Some("msi")
  }

  function Release200(): Snapshot {
    Snapshot("2.0.0", "notes", "2020-01-01",
      Some(map["dmg" := Asset("https://x/mac.dmg"),
               "darwin" := Asset("https://x/darwin.zip"),
               "msi" := Asset("https://x/win.msi")]),
      None)
  }

  lemma Release200Msi()
    ensures AssetFor(Release200(), "msi") == Some(Asset("https://x/win.msi"))
  {
  }

  /** `/download/mac` from a browser is the disk image. */
  lemma EndToEndMac(aliases: string -> Option<string>)
    requires KnowsCanonicalKeys(aliases)
    ensures DownloadPlatform(StrictEnv(aliases), "mac", Missing, Release200()) == Found("https://x/mac.dmg")
  {
    var env := StrictEnv(aliases);
    assert RewriteMac("mac", Missing) == "dmg";
    assert ResolvePlatform(env, "dmg") == Some("dmg");
    assert AssetFor(Release200(), "dmg") == Some(Asset("https://x/mac.dmg"));
  }

  /** `/download/mac_arm64` resolves, but the snapshot has no `dmg_arm64`. */
  lemma EndToEndMacArm(aliases: string -> Option<string>)
    requires KnowsCanonicalKeys(aliases)
    ensures DownloadPlatform(StrictEnv(aliases), "mac_arm64", Missing, Release200())
         == NotFound(PlatformDownloadUnavailable)
  {
    var env := StrictEnv(aliases);
    assert RewriteMac("mac_arm64", Missing) == "dmg_arm64";
    assert ResolvePlatform(env, "dmg_arm64") == Some("dmg_arm64");
    assert AssetFor(Release200(), "dmg_arm64") == None;
  }

  /** `/update/msi/1.0.0` is offered 2.0.0. */
  lemma EndToEndUpdate(aliases: string -> Option<string>, version: string, latest: Snapshot)
    requires KnowsCanonicalKeys(aliases) && version == "1.0.0" && latest == Release200()
    ensures Update(StrictEnv(aliases), "msi", version, latest)
         == UpdateAvailable("2.0.0", "notes", "2020-01-01", "https://x/win.msi")
  {
    Parse100(version);
    Parse200(latest.version);
    Release200Msi();
    OfferContents(StrictEnv(aliases), "msi", version, latest, "msi",
                  Version(1, 0, 0, [], []), Version(2, 0, 0, [], []));
  }

  /** `/update/msi/2.0.0` is already current. */
  lemma EndToEndCurrent(aliases: string -> Option<string>, version: string, latest: Snapshot)
    requires KnowsCanonicalKeys(aliases) && version == "2.0.0" && latest == Release200()
    ensures Update(StrictEnv(aliases), "msi", version, latest) == NoContent
  {
    Parse200(version);
    Parse200(latest.version);
    Release200Msi();
    SamePrecedenceIsNoContent(StrictEnv(aliases), "msi", version, latest, "msi",
                              Version(2, 0, 0, [], []), Version(2, 0, 0, [], []));
  }

  /** `/download` picks by user-agent: a Mac updater gets the update archive,
      an unknown OS gets 404. */
  lemma EndToEndSignalDownload()
    ensures Download(UserAgent(true, false), One("true"), Release200()) == Found("https://x/darwin.zip")
    ensures Download(UserAgent(false, false), Missing, Release200()) == NotFound(DownloadUnavailable)
  {
    assert ChoosePlatform(UserAgent(true, false), One("true")) == Some("darwin");
    assert AssetFor(Release200(), "darwin") == Some(Asset("https://x/darwin.zip"));
  }

  // ---------------------------------------------------------------------------
  // Squirrel.Windows file names

  function WindowsFeed(manifest: string): Snapshot {
    Snapshot("2.0.0", "", "", Some(map["nupkg" := Asset("https://x/full.nupkg")]),
             Some(map[ReleasesFile := manifest]))
  }

  /** A name whose first character is not `r` in any case is not the manifest. */
  lemma NotManifestName(name: string)
    requires |name| > 0 && LowerChar(name[0]) != 'r'
    ensures !StartsWith(ToLower(name), ReleasesPrefix)
  {
    assert ToLower(name)[0] == LowerChar(name[0]);
  }

  /** A name whose last character is not `g` in any case is not a package. */
  lemma NotPackageName(name: string)
    requires |name| > 0 && LowerChar(name[|name| - 1]) != 'g'
    ensures !EndsWith(ToLower(name), NupkgSuffix)
  {
    assert ToLower(name)[|name| - 1] == LowerChar(name[|name| - 1]);
  }

  /** `RELEASES` names the manifest. */
  lemma ManifestName(filename: string)
    requires filename == "RELEASES"
    ensures StartsWith(ToLower(filename), ReleasesPrefix)
  {
    assert ToLower(filename) == ReleasesPrefix;
  }

  /** `RELEASES` is served as the manifest, when there is a non-empty one. */
  lemma SquirrelManifestName(filename: string, latest: Snapshot)
    requires filename == "RELEASES"
    ensures SquirrelWindows(filename, latest).OctetStream? <==> ReleasesManifest(latest).Some?
  {
    ManifestName(filename);
  }

  /** An empty manifest is no content. */
  lemma SquirrelEmptyManifest(filename: string, latest: Snapshot)
    requires filename == "RELEASES" && latest == WindowsFeed("")
    ensures SquirrelWindows(filename, latest) == NoContent
  {
    ManifestName(filename);
    assert ReleasesManifest(latest) == None;
  }

  /** A package name ends in `nupkg` once lower-cased. */
  lemma PackageName(name: string)
    requires |name| >= 5 && name[|name| - 5..] == "NUPKG"
    ensures EndsWith(ToLower(name), NupkgSuffix)
  {
    var k := |name| - 5;
    var l := ToLower(name);
    assert name[k] == 'N' && name[k + 1] == 'U' && name[k + 2] == 'P';
    assert name[k + 3] == 'K' && name[k + 4] == 'G';
    assert l[k] == 'n' && l[k + 1] == 'u' && l[k + 2] == 'p' && l[k + 3] == 'k' && l[k + 4] == 'g';
    assert l[k..] == NupkgSuffix;
  }

  /** A name with both shapes is served as the manifest. */
  lemma SquirrelBothShapes(filename: string, latest: Snapshot)
    requires filename == "releases.nupkg"
    ensures SquirrelWindows(filename, latest).OctetStream? <==> ReleasesManifest(latest).Some?
  {
    assert filename[..8] == ReleasesPrefix;
    ReleasesPrefixIsLower(ReleasesPrefix);
    LowerKeepsPrefix(filename, ReleasesPrefix);
  }

  /** The manifest prefix is already lower-case. */
  lemma ReleasesPrefixIsLower(p: string)
    requires p == ReleasesPrefix
    ensures forall i :: 0 <= i < |p| ==> IsLower(p[i])
  {
    assert IsLower('r') && IsLower('e') && IsLower('l') && IsLower('a') && IsLower('s');
    assert forall i :: 0 <= i < |p| ==> p[i] in "relas";
  }

  /** A package name, in any case, goes to the `nupkg` asset. */
  lemma SquirrelPackageName(pkg: string, latest: Snapshot)
    requires pkg == "app-full.NUPKG" && latest == WindowsFeed("abc")
    ensures SquirrelWindows(pkg, latest) == Found("https://x/full.nupkg")
  {
    NotManifestName(pkg);
    PackageName(pkg);
    assert AssetFor(latest, NupkgPlatform) == Some(Asset("https://x/full.nupkg"));
  }

  /** Any other name is a bad request. */
  lemma SquirrelOtherName(filename: string, latest: Snapshot)
    requires filename == "notes.txt"
    ensures SquirrelWindows(filename, latest) == BadRequest
  {
    NotManifestName(filename);
    NotPackageName(filename);
  }
}
