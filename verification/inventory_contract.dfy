/** The record types of a candidate inventory and the blockers it reports. */
module InventoryContract {
  import opened Ordering

  datatype CandidateArtifact = CandidateArtifact(filename: string, sha256: string)

  datatype Limits = Limits(maxEntries: nat, maxFileBytes: nat, maxTotalBytes: nat)

  /** Package and version, as a distribution filename spells them. */
  datatype Parsed = Parsed(package: string, version: string)

  datatype Release = Release(package: string, version: string, candidates: seq<CandidateArtifact>)

  datatype Artifact = Artifact(filename: string, package: string, version: string, artifactType: string,
                               sha256: string, sizeBytes: nat, sourceIdentity: seq<int>)
  {
    function ExactIdentity(): (string, nat, string) { (filename, sizeBytes, sha256) }
    function Key(): (string, string) { (package, version) }
    function Candidate(): CandidateArtifact { CandidateArtifact(filename, sha256) }
  }

  datatype Blocker =
    | DirectoryUnavailable
    | RootSymlink
    | RootUnsafe
    | NoFollowUnavailable
    | RootIdentityChanged
    | RootEntriesChanged
    | EntryLimitExceeded(maximum: nat, observedAtLeast: nat)
    | EntryUnavailable(name: string)
    | EntryUnsafe(name: string)
    | ArtifactUnrecognized(name: string)
    | FileSizeLimitExceeded(name: string, maximum: nat, actual: nat)
    | TotalSizeLimitExceeded(maximum: nat, actual: nat)
    | EntryChanged(name: string)
    | ArtifactCountMismatch(expected: nat, actual: nat)
    | DistributionCountMismatch(expected: nat, actual: nat)
    | EntryCountMismatch(expected: nat, actual: nat)
    | PackageSetMismatch(missing: seq<string>, unexpectedCount: nat)
    | PackageUnexpected(release: Release)
    | VersionMismatch(release: Release, expectedVersion: string)
    | WheelCountMismatch(release: Release, actual: nat)
    | WheelMissing(release: Release)
    | SdistCountMismatch(release: Release, actual: nat)
    | SdistMissing(release: Release)
    | SdistFormatUnsupported(filename: string)
    | FinalRevalidationFailed
    | FinalHandoffDiffers
    | FinalDirectoryChanged
    | FinalArtifactChanged(name: string)

  /** `_CandidateScan` */
  datatype Scan = Scan(entryCount: nat, releases: seq<Release>, artifacts: seq<Artifact>,
                       blockers: seq<Blocker>, sourceIdentity: seq<int>)

  /** A scan that stopped before it had anything to report. */
  function BlockedScan(entryCount: nat, blockers: seq<Blocker>): Scan {
    Scan(entryCount, [], [], blockers, [])
  }

  datatype Report = Report(expectedVersion: string, entryCount: nat, releases: seq<Release>,
                           artifacts: seq<Artifact>, blockers: seq<Blocker>, sourceIdentity: seq<int>)

  predicate EndsWith(s: string, suffix: string) {
    |suffix| <= |s| && s[|s| - |suffix|..] == suffix
  }

  const WHEEL := ".whl"
  const SDIST := ".tar.gz"
  const ZIP := ".zip"

  /** `_artifact_type` */
  function ArtifactType(filename: string): string {
    if EndsWith(filename, WHEEL) then "wheel"
    else if EndsWith(filename, SDIST) then "sdist"
    else "unsupported_sdist"
  }

  lemma SuffixesExclude(s: string)
    ensures EndsWith(s, WHEEL) ==> !EndsWith(s, SDIST) && !EndsWith(s, ZIP)
    ensures EndsWith(s, SDIST) ==> !EndsWith(s, ZIP)
  {
    var last := |s| - 1;
    if EndsWith(s, WHEEL) { assert s[last] == s[|s| - 4..][3] == 'l'; }
    if EndsWith(s, SDIST) { assert s[last] == s[|s| - 7..][6] == 'z'; }
    if EndsWith(s, ZIP) { assert s[last] == s[|s| - 4..][3] == 'p'; }
  }

  /** The two filename parsers of the `packaging` library, as far as the tool sees them. */
  datatype FilenameParser = FilenameParser(wheel: string -> Option<Parsed>, sdist: string -> Option<Parsed>) {
    /** `_parse_distribution_filename` */
    function Parse(name: string): (r: Option<Parsed>)
      ensures r.Some? ==> EndsWith(name, WHEEL) || EndsWith(name, SDIST) || EndsWith(name, ZIP)
    {
      if EndsWith(name, WHEEL) then wheel(name)
      else if EndsWith(name, SDIST) || EndsWith(name, ZIP) then sdist(name)
      else None
    }
  }

  /** EXPECTED_DISTRIBUTIONS, in sorted order. */
  const EXPECTED_DISTRIBUTIONS: seq<string> :=
    ["apache-airflow-providers-dpone", "dpone", "dpone-airflow-pack", "dpone-mssql-sqlclient", "dpone-native-accel"]
}
