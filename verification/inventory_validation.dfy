/** The closed-set validation of grouped releases. */
module InventoryValidation {
  import opened Ordering
  import opened InventoryContract
  import opened InventoryGrouping

  predicate HasSuffix(c: CandidateArtifact, suffix: string) { EndsWith(c.filename, suffix) }

  function CountSuffix(candidates: seq<CandidateArtifact>, suffix: string): nat {
    |Filter(candidates, (c: CandidateArtifact) => HasSuffix(c, suffix))|
  }

  function Packages(releases: seq<Release>): set<string> {
    set r | r in releases :: r.package
  }

  function CandidateTotal(releases: seq<Release>): nat {
    if releases == [] then 0
    else CandidateTotal(releases[..|releases| - 1]) + |releases[|releases| - 1].candidates|
  }

  function UnsupportedZips(candidates: seq<CandidateArtifact>): seq<Blocker> {
    if candidates == [] then []
    else UnsupportedZips(candidates[..|candidates| - 1])
         + var last := candidates[|candidates| - 1];
           if HasSuffix(last, ZIP) then [SdistFormatUnsupported(last.filename)] else []
  }

  function VersionBlockers(release: Release, expectedVersion: string): seq<Blocker> {
    if release.version == expectedVersion then [] else [VersionMismatch(release, expectedVersion)]
  }

  function WheelBlockers(release: Release): seq<Blocker> {
    var count := CountSuffix(release.candidates, WHEEL);
    if count == 1 then []
    else if count == 0 then [WheelCountMismatch(release, 0), WheelMissing(release)]
    else [WheelCountMismatch(release, count)]
  }

  function SdistBlockers(release: Release): seq<Blocker> {
    var count := CountSuffix(release.candidates, SDIST);
    if count == 1 then []
    else if count == 0 then [SdistCountMismatch(release, 0), SdistMissing(release)]
    else [SdistCountMismatch(release, count)]
  }

  function ReleaseBlockers(release: Release, expectedVersion: string): seq<Blocker> {
    VersionBlockers(release, expectedVersion) + WheelBlockers(release) + SdistBlockers(release)
    + UnsupportedZips(release.candidates)
  }

  function PerRelease(releases: seq<Release>, expectedVersion: string): seq<Blocker> {
    if releases == [] then []
    else PerRelease(releases[..|releases| - 1], expectedVersion)
         + ReleaseBlockers(releases[|releases| - 1], expectedVersion)
  }

  function UnexpectedBlockers(unexpected: seq<Release>): (r: seq<Blocker>)
    ensures |r| == |unexpected|
    ensures forall i | 0 <= i < |r| :: r[i] == PackageUnexpected(unexpected[i])
  {
    if unexpected == [] then [] else [PackageUnexpected(unexpected[0])] + UnexpectedBlockers(unexpected[1..])
  }

  function CountBlockers(total: nat, releases: nat): seq<Blocker> {
    (if total != 10 then [ArtifactCountMismatch(10, total)] else [])
    + (if releases != 5 then [DistributionCountMismatch(5, releases)] else [])
  }

  function PackageBlockers(releases: seq<Release>): seq<Blocker> {
    var actual := Packages(releases);
    if actual == Elements(EXPECTED_DISTRIBUTIONS) then []
    else
      var unexpected := Filter(releases, (r: Release) => r.package !in EXPECTED_DISTRIBUTIONS);
      [PackageSetMismatch(Filter(EXPECTED_DISTRIBUTIONS, p => p !in actual), |unexpected|)]
      + UnexpectedBlockers(unexpected)
  }

  /** What validation reports. */
  function Blockers(releases: seq<Release>, expectedVersion: string): seq<Blocker> {
    CountBlockers(CandidateTotal(releases), |releases|) + PackageBlockers(releases)
    + PerRelease(releases, expectedVersion)
  }

  /** `validate_distribution_inventory` */
  method ValidateDistributionInventory(releases: seq<Release>, expectedVersion: string)
    returns (blockers: seq<Blocker>)
    ensures blockers == Blockers(releases, expectedVersion)
  {
    hide CountBlockers, PackageBlockers, ReleaseBlockers;
    var total := 0;
    for i := 0 to |releases|
      invariant total == CandidateTotal(releases[..i])
    {
      assert releases[..i + 1][..i] == releases[..i];
      total := total + |releases[i].candidates|;
    }
    assert releases[..|releases|] == releases;
    var counts := CountMismatches(total, |releases|);
    var packages := CheckPackages(releases);
    blockers := counts + packages;
    for i := 0 to |releases|
      invariant blockers == counts + packages + PerRelease(releases[..i], expectedVersion)
    {
      var found := CheckRelease(releases[i], expectedVersion);
      assert releases[..i + 1][..i] == releases[..i];
      blockers := blockers + found;
    }
  }

  method CheckPackages(releases: seq<Release>) returns (blockers: seq<Blocker>)
    ensures blockers == PackageBlockers(releases)
  {
    var actual := Packages(releases);
    if actual == Elements(EXPECTED_DISTRIBUTIONS) {
      return [];
    }
    var unexpected := Filter(releases, (r: Release) => r.package !in EXPECTED_DISTRIBUTIONS);
    var missing := Filter(EXPECTED_DISTRIBUTIONS, p => p !in actual);
    blockers := [PackageSetMismatch(missing, |unexpected|)] + UnexpectedBlockers(unexpected);
  }

  method CountMismatches(total: nat, releases: nat) returns (blockers: seq<Blocker>)
    ensures blockers == CountBlockers(total, releases)
  {
    blockers := [];
    if total != 10 {
      blockers := blockers + [ArtifactCountMismatch(10, total)];
    }
    if releases != 5 {
      blockers := blockers + [DistributionCountMismatch(5, releases)];
    }
  }

  lemma VersionPart(release: Release, expectedVersion: string)
    ensures VersionBlockers(release, expectedVersion)
            == if release.version != expectedVersion then [VersionMismatch(release, expectedVersion)] else []
  {
  }

  lemma ZipsOfNone()
    ensures UnsupportedZips([]) == []
  {
  }

  lemma ZipsOfNext(cs: seq<CandidateArtifact>, i: nat)
    requires i < |cs|
    ensures UnsupportedZips(cs[..i + 1])
            == UnsupportedZips(cs[..i]) + if HasSuffix(cs[i], ZIP) then [SdistFormatUnsupported(cs[i].filename)] else []
  {
    assert cs[..i + 1][..i] == cs[..i];
  }

  method CheckRelease(release: Release, expectedVersion: string) returns (blockers: seq<Blocker>)
    ensures blockers == ReleaseBlockers(release, expectedVersion)
  {
    hide CountSuffix, HasSuffix, UnsupportedZips, VersionBlockers;
    var cs := release.candidates;
    blockers := if release.version != expectedVersion then [VersionMismatch(release, expectedVersion)] else [];
    VersionPart(release, expectedVersion);
    var wheels := CountSuffix(cs, WHEEL);
    if wheels != 1 {
      var missing := if wheels == 0 then [WheelMissing(release)] else [];
      blockers := blockers + ([WheelCountMismatch(release, wheels)] + missing);
    }
    var sdists := CountSuffix(cs, SDIST);
    if sdists != 1 {
      var missing := if sdists == 0 then [SdistMissing(release)] else [];
      blockers := blockers + ([SdistCountMismatch(release, sdists)] + missing);
    }
    ghost var counted := blockers;
    assert counted == VersionBlockers(release, expectedVersion) + WheelBlockers(release) + SdistBlockers(release);
    hide WheelBlockers, SdistBlockers;
    ZipsOfNone();
    for i := 0 to |cs|
      invariant blockers == counted + UnsupportedZips(cs[..i])
    {
      ZipsOfNext(cs, i);
      if HasSuffix(cs[i], ZIP) {
        blockers := blockers + [SdistFormatUnsupported(cs[i].filename)];
      }
    }
    assert cs[..|cs|] == cs;
  }

  // The meaning of "no blockers".

  lemma ZipsOfLast(candidates: seq<CandidateArtifact>)
    requires candidates != []
    ensures var before, last := candidates[..|candidates| - 1], candidates[|candidates| - 1];
            UnsupportedZips(candidates) == [] <==> UnsupportedZips(before) == [] && !HasSuffix(last, ZIP)
  {
    hide HasSuffix;
  }

  lemma {:induction false} NoZips(candidates: seq<CandidateArtifact>)
    ensures UnsupportedZips(candidates) == [] <==> forall i | 0 <= i < |candidates| :: !HasSuffix(candidates[i], ZIP)
  {
    hide HasSuffix;
    if candidates != [] {
      var before, last := candidates[..|candidates| - 1], candidates[|candidates| - 1];
      NoZips(before);
      FrontAndLast(candidates);
      ZipsOfLast(candidates);
      hide UnsupportedZips;
      assert forall i | 0 <= i < |before| :: candidates[i] == before[i];
    }
  }

  lemma {:induction false} NoReleaseBlockers(releases: seq<Release>, expectedVersion: string)
    ensures PerRelease(releases, expectedVersion) == []
            <==> forall i | 0 <= i < |releases| :: ReleaseBlockers(releases[i], expectedVersion) == []
  {
    hide ReleaseBlockers;
    if releases != [] {
      NoReleaseBlockers(releases[..|releases| - 1], expectedVersion);
    }
  }

  /** The artifacts of one key with one suffix. */
  predicate IsOf(a: Artifact, key: Key, suffix: string) {
    a.Key() == key && EndsWith(a.filename, suffix)
  }

  lemma {:induction false} CountByArtifact(artifacts: seq<Artifact>, key: Key, suffix: string)
    ensures CountSuffix(CandidatesOf(artifacts, key), suffix)
         == |Filter(artifacts, (a: Artifact) => IsOf(a, key, suffix))|
  {
    if artifacts != [] {
      var init, last := artifacts[..|artifacts| - 1], artifacts[|artifacts| - 1];
      CountByArtifact(init, key, suffix);
      assert artifacts == init + [last];
      FilterAppend(init, [last], (a: Artifact) => IsOf(a, key, suffix));
      FilterAppend(CandidatesOf(init, key), Contribution(last, key), (c: CandidateArtifact) => HasSuffix(c, suffix));
    }
  }

  lemma CountInRelease(artifacts: seq<Artifact>, key: Key, suffix: string)
    ensures CountSuffix(ReleaseOf(artifacts, key).candidates, suffix) == 1
            <==> ExactlyOne(artifacts, (a: Artifact) => IsOf(a, key, suffix))
  {
    var cs := CandidatesOf(artifacts, key);
    SortPermutes(cs, CandidateLeq);
    FilterPermutes(Sort(cs, CandidateLeq), cs, (c: CandidateArtifact) => HasSuffix(c, suffix));
    CountByArtifact(artifacts, key, suffix);
    FilterOne(artifacts, (a: Artifact) => IsOf(a, key, suffix));
  }

  lemma {:induction false} CandidateFrom(artifacts: seq<Artifact>, key: Key, c: CandidateArtifact)
    ensures c in CandidatesOf(artifacts, key)
            <==> exists i | 0 <= i < |artifacts| :: artifacts[i].Key() == key && artifacts[i].Candidate() == c
  {
    if artifacts != [] {
      var init, last := artifacts[..|artifacts| - 1], artifacts[|artifacts| - 1];
      CandidateFrom(init, key, c);
      if c in CandidatesOf(init, key) {
        var i :| 0 <= i < |init| && init[i].Key() == key && init[i].Candidate() == c;
        assert artifacts[i] == init[i];
      }
    }
  }

  lemma ZipsInRelease(artifacts: seq<Artifact>, key: Key)
    ensures UnsupportedZips(ReleaseOf(artifacts, key).candidates) == []
            <==> forall i | 0 <= i < |artifacts| && artifacts[i].Key() == key :: !EndsWith(artifacts[i].filename, ZIP)
  {
    var cs := CandidatesOf(artifacts, key);
    var sorted := Sort(cs, CandidateLeq);
    SortPermutes(cs, CandidateLeq);
    NoZips(sorted);
    if forall i | 0 <= i < |sorted| :: !HasSuffix(sorted[i], ZIP) {
      forall i | 0 <= i < |artifacts| && artifacts[i].Key() == key ensures !EndsWith(artifacts[i].filename, ZIP) {
        var c := artifacts[i].Candidate();
        CandidateFrom(artifacts, key, c);
        assert c in sorted;
      }
    }
    if forall i | 0 <= i < |artifacts| && artifacts[i].Key() == key :: !EndsWith(artifacts[i].filename, ZIP) {
      forall i | 0 <= i < |sorted| ensures !HasSuffix(sorted[i], ZIP) {
        assert sorted[i] in cs;
        CandidateFrom(artifacts, key, sorted[i]);
      }
    }
  }
}
