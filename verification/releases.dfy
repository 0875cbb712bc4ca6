/** The release snapshot the cache hands to every request: the latest
    version, its notes and publish date, one asset per platform key, and the
    Squirrel.Windows `RELEASES` manifest. Either collection may be absent. */
module Releases {

  import opened Wrappers

  datatype Asset = Asset(url: string)

  datatype Snapshot = Snapshot(
    version: string,
    notes: string,
    pubDate: string,
    platforms: Option<map<string, Asset>>,
    files: Option<map<string, string>>)

  /** The name under which the Windows release manifest is kept in `files`. */
  const ReleasesFile: string := "RELEASES"

  /** `platforms && platforms[key]`: the asset, when the snapshot has one for
      `key` (an asset object is always truthy). */
  function AssetFor(s: Snapshot, key: string): (r: Option<Asset>)
    ensures r.Some? <==> s.platforms.Some? && key in s.platforms.value
    ensures r.Some? ==> r.value == s.platforms.value[key]
  {
    match s.platforms
    case None => None
    case Some(m) => if key in m then Some(m[key]) else None
  }

  /** `files && files.RELEASES`: the manifest, when present and non-empty
      (the empty string is falsy). */
  function ReleasesManifest(s: Snapshot): (r: Option<string>)
    ensures r.Some? <==> s.files.Some? && ReleasesFile in s.files.value
                         && s.files.value[ReleasesFile] != ""
    ensures r.Some? ==> r.value == s.files.value[ReleasesFile]
  {
    match s.files
    case None => None
    case Some(m) => if ReleasesFile in m && m[ReleasesFile] != "" then Some(m[ReleasesFile]) else None
  }
}
