# Update-server routes in Dafny

A model of the request handlers of an Electron auto-update server
(`lib/routes.js`). These handlers serve the latest release of a desktop
application to browsers and to the Squirrel.Mac and Squirrel.Windows
updaters. Each handler is a loop-free decision over a few request fields and
a release snapshot, and ends in one terminal response:

- `download` (`GET /download`) picks a platform key from the user-agent and
  the `update` query flag, then redirects to that platform's asset.
- `downloadPlatform` (`GET /download/:platform`) applies two rewrites,
  `mac` to `dmg` and `mac_arm64` to `dmg_arm64`, unless the request is an
  update poll. It then resolves the platform alias and redirects.
- `update` (`GET /update/:platform/:version`) is the version gate. It
  validates the client's version and resolves the platform. It answers 204
  when there is no asset. Otherwise it offers the latest release exactly when
  the SemVer precedence of the two versions differs, in either direction, so
  a downgrade is also offered.
- `squirrelWindows` (`GET /update/win32/:filename`) serves the `RELEASES`
  manifest for names starting with `releases`, redirects names ending in
  `nupkg` to the `nupkg` asset, and refuses anything else. Both tests ignore
  case.

Each handler is a pure function from the request fields and the snapshot to
a `Response`.

The handlers call collaborators whose code is not part of this model. They
are parameters:

- `Routes.Env` carries the platform alias table as an uninterpreted
  `checkAlias: string -> Option<string>`.
- `Routes.Env` also carries the version reader behind `semver.valid` and
  `semver.compare` as `parseVersion: string -> Option<SemVer.Version>`.
  `semver.valid` means the version parses. `semver.compare` is section 11
  precedence of Semantic Versioning 2.0.0 on the parsed values. When either
  side does not parse, `compare` throws, and the model answers
  `UncaughtError`, a 500 produced by the serving layer.
- The user-agent parser is reduced to its two booleans, `isMac` and
  `isWindows`.
- The query parser's value for `update` is `Missing`, `One(text)` or
  `Many(texts)`. JavaScript truthiness is stated explicitly: `""` is falsy
  and an array is always truthy.

Modules:

| file | module | contents |
|---|---|---|
| `wrappers.dfy` | `Wrappers` | `Option` |
| `text.dfy` | `Text` | `toLowerCase`, `startsWith` and `endsWith`; split and join at a separator, with their round trips, used by the strict version reader |
| `utf8.dfy` | `Utf8` | UTF-8 encoding of a string, its decoder, and the byte count `Buffer.byteLength` returns |
| `semver.dfy` | `SemVer` | version values and section 11 precedence: a total order that ignores build metadata |
| `semver_syntax.dfy` | `SemVerSyntax` | a strict reader and writer for the Semantic Versioning 2.0.0 text grammar, which are inverse to each other |
| `http.dfy` | `Http` | the responses the handlers send, and truthiness of a query value |
| `releases.dfy` | `Releases` | the release snapshot, and the two lookups the handlers make in it |
| `routes.dfy` | `Routes` | the four handlers |
| `route_properties.dfy` | `RouteProperties` | properties that hold across calls, or for every snapshot and every collaborator |
| `scenarios.dfy` | `Scenarios` | concrete requests against concrete snapshots, using the strict version reader |

The alias table (`lib/aliases.js`) is not part of this model. The
scenarios assume an alias table that maps `dmg`, `dmg_arm64` and `msi` to
themselves (`KnowsMsi`, `KnowsCanonicalKeys`); every other property holds
for any alias table.

## Model

| member | source | states |
|---|---|---|
| Routes.ChoosePlatform | lib/routes.js:24-32 | `darwin` exactly for a Mac client with a truthy `update` flag, `dmg` exactly for a Mac client without one, `msi` exactly for a non-Mac Windows client, and no platform exactly when the client is neither; the Mac branch comes before the Windows one |
| Routes.Download | lib/routes.js:19-47 | the answer is a redirect or 404 "No download available for your platform!"; it redirects exactly when a platform was chosen and the snapshot has an asset for it, and the location is that asset's url |
| Routes.RewriteMac | lib/routes.js:55-61 | an update poll keeps the token; otherwise exactly `mac` and `mac_arm64` change, to `dmg` and `dmg_arm64` |
| Routes.ResolvePlatform | lib/routes.js:67-72 | the alias table's answer counts only when it is a non-empty key (the `!platform` test), and is then the key returned |
| Routes.DownloadPlatform | lib/routes.js:49-84 | the answer is a redirect, a plain 500 "The specified platform is not valid", or 404 "No download available for your platform"; 500 exactly when the rewritten token does not resolve, a redirect exactly when it resolves to a key with an asset, to that asset's url |
| Routes.CompareVersions | lib/routes.js:129 | `compare` returns a value exactly when both versions are valid; the value is -1, 0 or 1, and it is 0 exactly when the two parsed versions agree once build metadata is dropped |
| Routes.Update | lib/routes.js:86-144 | the answer is an offer (200), 204, a JSON 500 or a thrown comparison (500); `version_invalid` exactly when the version is invalid; `invalid_platform` exactly when the version is valid and the platform does not resolve; an offer only when the version is valid, the platform resolves to a key with an asset and the precedence differs, and the offer carries the snapshot's version, notes and publish date and that asset's url |
| Routes.SquirrelWindows | lib/routes.js:146-185 | the answer is the manifest bytes, a redirect, 204 or 400; the bytes decode back to the non-empty manifest, and the content length is both their count and the length of the manifest's UTF-8 encoding, the value `Buffer.byteLength` returns; 400 exactly when the lower-cased name neither starts with `releases` nor ends with `nupkg` |
| Releases.AssetFor | lib/routes.js:112 | `platforms && platforms[key]` yields an asset exactly when `platforms` exists and holds the key, and it is that entry |
| Releases.ReleasesManifest | lib/routes.js:152-159 | `files && files.RELEASES` yields the manifest exactly when `files` exists and holds a non-empty `RELEASES` entry, and it is that entry |
| RouteProperties.EmptyUpdateFlagIsNoUpdate | lib/routes.js:21-61 | `?update=` is answered exactly as a request without the flag, on both download routes |
| RouteProperties.MacBeforeWindows | lib/routes.js:26-32 | a client reporting both Mac and Windows is only ever redirected to the Mac asset (`darwin` or `dmg`) |
| RouteProperties.MacTokensServeDiskImages | lib/routes.js:55-61 | for a browser download, `mac` and `mac_arm64` get the same answers as `dmg` and `dmg_arm64` |
| RouteProperties.RewriteBeforeAlias | lib/routes.js:55-67 | for a browser download of `mac`, only the alias table's entry for `dmg` matters: two tables agreeing on `dmg` give the same answer |
| RouteProperties.UpdatePollResolvesTokenAsSent | lib/routes.js:51-72 | on an update poll the token goes to the alias table unchanged: 500 exactly when the token does not resolve, a redirect exactly when it resolves to a key with an asset |
| RouteProperties.InvalidVersionAlwaysRefused | lib/routes.js:89-96 | an invalid version gets `version_invalid` for every platform and every snapshot |
| RouteProperties.InvalidPlatformAlwaysRefused | lib/routes.js:98-107 | a valid version with an unresolved platform gets `invalid_platform` for every snapshot |
| RouteProperties.NoAssetMeansNoContent | lib/routes.js:112-117 | with no asset for the resolved key the answer is 204 whatever the snapshot's version, even an unparsable one, because no comparison is made |
| RouteProperties.OfferedIffPrecedenceDiffers | lib/routes.js:119-143 | past the checks, an offer is made exactly when the precedence differs and 204 is sent exactly when it is equal; a client ahead of the server is offered the server's release |
| RouteProperties.OfferContents | lib/routes.js:129-137 | an offer is exactly the snapshot's version, notes and publish date with the resolved platform's url |
| RouteProperties.CompareVersionsAntisymmetric | lib/routes.js:129 | swapping the two version strings keeps whether `compare` returns and negates its value |
| RouteProperties.SamePrecedenceIsNoContent | lib/routes.js:142-143 | equal precedence past the checks is 204 |
| RouteProperties.UnparsableLatestVersionThrows | lib/routes.js:129 | a snapshot version that does not parse makes `compare` throw once the checks before it pass |
| RouteProperties.SquirrelIgnoresCase | lib/routes.js:151-167 | a file name and its lower-cased form get the same answer |
| RouteProperties.ReleasesPrefixWins | lib/routes.js:151-166 | a `releases` name is never redirected, even when it also ends in `nupkg`, and gets 204 exactly when there is no usable manifest |
| RouteProperties.NupkgRedirects | lib/routes.js:167-180 | a `nupkg` name is redirected exactly when there is a `nupkg` asset, to its url, and gets 204 otherwise |
| Text.ToLower | lib/routes.js:151 | lower-casing keeps the length and lower-cases each character |
| Text.ToLowerIdempotent | lib/routes.js:151 | lower-casing twice is lower-casing once |
| Text.StartsWithIgnoringCase | lib/routes.js:151 | against a lower-case pattern, the prefix test looks at exactly the first pattern-length characters, each compared after lower-casing |
| Text.EndsWithIgnoringCase | lib/routes.js:167 | against a lower-case pattern, the suffix test looks at exactly the last pattern-length characters, each compared after lower-casing |
| Utf8.ByteLength | lib/routes.js:162 | the byte count is the length of the UTF-8 encoding of the content |
| Utf8.DecodeEncode | lib/routes.js:159-166 | the bytes sent decode back to the manifest text |
| Utf8.DecodeInjective | lib/routes.js:159-166 | bytes that decode to a text are exactly that text's encoding, so the body sent is the only byte sequence for the manifest and `content-length` counts it |
| Utf8.EncodeLengthBounds | lib/routes.js:162 | the byte count is between one and four bytes per character, and equals the character count for ASCII text |
| SemVer.CompareIsOrdering | lib/routes.js:129 | precedence comparison yields -1, 0 or 1 |
| SemVer.CompareAntisymmetric | lib/routes.js:129 | swapping the operands negates the comparison |
| SemVer.CompareTransitive | lib/routes.js:129 | "not above" is transitive |
| SemVer.CompareZeroIff | lib/routes.js:129 | two versions have equal precedence exactly when they agree once build metadata is dropped |
| SemVer.CompareIgnoresBuild | lib/routes.js:129 | build metadata never changes precedence |
| SemVer.PreReleaseBelowRelease | lib/routes.js:129 | a pre-release ranks below its release |
| SemVer.PrecedenceExample | lib/routes.js:129 | the ordered example chain of section 11.4 of Semantic Versioning 2.0.0 |
| SemVer.LexZeroIff | lib/routes.js:129 | lexicographic comparison under a total order is 0 exactly for equal sequences |
| SemVerSyntax.FormatParse | lib/routes.js:89 | every well-formed version is read back from its text |
| SemVerSyntax.ParseFormat | lib/routes.js:89 | every accepted text is well formed and is exactly the text of what it reads as |
| SemVerSyntax.FormatParseAll | lib/routes.js:89 | for all versions at once: every well-formed version is read back from its text |
| SemVerSyntax.ParseFormatAll | lib/routes.js:89 | for all texts at once: every accepted text is well formed and is exactly the text of what it reads as |
| SemVerSyntax.ValidStartsWithDigit | lib/routes.js:89 | a valid version starts with a digit |
| Scenarios.StrictEnv | lib/routes.js:89 | with the strict reader, every well-formed version's text is valid and reads back as that version, and every valid text is well formed and is exactly the text of the version it reads as |
| Scenarios.NotAVersion | lib/routes.js:89 | `not-a-version` is not valid |
| Scenarios.MalformedVersionRefused | lib/routes.js:89-96 | `/update/<any>/not-a-version` gets `version_invalid` |
| Scenarios.DowngradeIsOffered | lib/routes.js:119-137 | a client on 1.3.0 is offered the server's 1.2.0 |
| Scenarios.SameVersionIsNoContent | lib/routes.js:129-143 | a client on the server's 1.2.0 gets 204 |
| Scenarios.BuildMetadataIsNotAnUpdate | lib/routes.js:129-143 | a server on `1.2.0+build.7` gives a client on `1.2.0` 204 although the strings differ |
| Scenarios.EndToEndMac | lib/routes.js:55-81 | `/download/mac` redirects to the disk image |
| Scenarios.EndToEndMacArm | lib/routes.js:59-76 | `/download/mac_arm64` resolves to `dmg_arm64`, which the snapshot lacks, so it is 404 |
| Scenarios.EndToEndUpdate | lib/routes.js:129-137 | `/update/msi/1.0.0` is offered 2.0.0 with the MSI url |
| Scenarios.EndToEndCurrent | lib/routes.js:142-143 | `/update/msi/2.0.0` gets 204 |
| Scenarios.EndToEndSignalDownload | lib/routes.js:24-40 | a Mac updater on `/download?update=true` gets the update archive, and an unknown OS gets 404 |
| Scenarios.SquirrelManifestName | lib/routes.js:151-166 | `RELEASES` is served as the manifest exactly when there is a usable one |
| Scenarios.SquirrelEmptyManifest | lib/routes.js:152-156 | an empty `RELEASES` entry is 204 |
| Scenarios.SquirrelBothShapes | lib/routes.js:151 | `releases.nupkg` is treated as the manifest |
| Scenarios.SquirrelPackageName | lib/routes.js:167-180 | `app-full.NUPKG` is redirected to the `nupkg` asset |
| Scenarios.SquirrelOtherName | lib/routes.js:181-184 | `notes.txt` gets 400 |

## Left out

- `overview` (lib/routes.js:187-218) renders an HTML page with relative dates and logs to the console. It is presentation and I/O.
- `loadCache` and the async plumbing are left out. The snapshot is a parameter of each handler.
- The `micro` `send`, `res.writeHead` and `res.end` side effects are replaced by the returned `Response`. Header writing beyond `Location` and `content-length`, and the JSON serialisation of bodies, are not modelled.
- `update`'s JSON body: absent `notes` or `pub_date` fields are simply omitted by the serialiser. The model's snapshot always carries both as strings.
- The internals of the user-agent parser and the URL query parser are left out. Only the `isMac` and `isWindows` flags and the parsed value of `update` are modelled.
- The contents of the alias table are not modelled: `checkAlias` is a parameter.
- `parseVersion` is a parameter. The node-semver reader also accepts a leading `v` and surrounding whitespace. It also limits text to 256 characters and the major, minor and patch numbers to 2^53-1. The reader in `SemVerSyntax` is the strict Semantic Versioning 2.0.0 grammar, and only the concrete scenarios use it.
- SemVerSyntax.FormatParse, SemVerSyntax.ParseFormat, SemVerSyntax.FormatParseAll, SemVerSyntax.ParseFormatAll, SemVerSyntax.ValidStartsWithDigit: these hold for the strict reader only. node-semver's `valid` also accepts texts such as `v1.2.0` or ` 1.2.0 `, which neither start with a digit nor read back as their own text. It refuses texts longer than 256 characters and major, minor or patch numbers above 2^53-1, which the strict reader accepts.
- Routes.CompareVersions, SemVer.CompareZeroIff, SemVer.CompareTransitive: node-semver keeps a numeric pre-release identifier of 2^53-1 or more as a string, and its `compareIdentifiers` converts both sides to doubles before comparing. Distinct identifiers that round to the same double therefore compare as 0 there. For example, a client on `1.0.0-9007199254740993` polling a server on `1.0.0-9007199254740992` gets 204 from the program but an offer in the model. On such identifiers node-semver's comparison is also not transitive: `1.0.0-9007199254740993.b` equals `1.0.0-9007199254740992.a`, which equals `1.0.0-9007199254740993.a`, yet the first is above the last. The model compares these numbers exactly, so its precedence is a total order; the zero-iff and transitivity hold for it and for node-semver only below 2^53-1.
- Text.ToLower: maps only `A`-`Z` and the Kelvin sign (U+212A) to lower case, and leaves every other character alone. `String.prototype.toLowerCase` covers all of Unicode, and it turns U+0130 into two characters. Every other character's lower case contains no ASCII letter and so can never match `releases` or `nupkg`. U+0130 gives `i` followed by a combining dot, and `i` appears in neither word. So the dispatch decision is the same as the full mapping's.
- Utf8.ByteLength: JavaScript strings can hold lone surrogates, which `Buffer.byteLength` counts as three bytes each. Dafny `char` values are Unicode scalar values, so lone surrogates cannot occur in the model.
- Lookups such as `platforms[platform]` in JavaScript also find properties inherited from the object prototype, for example `constructor`. The model's maps hold only their own keys.
- Exceptions from collaborators are not modelled, except a throwing `semver.compare` (`UncaughtError`). For example, a `loadCache` that rejects is not modelled.
