/** What a report contains, blocker by blocker and release by release. */
module InventoryReports {
  import opened Ordering
  import opened InventoryContract
  import opened InventoryGrouping
  import InventoryValidation
  import InventoryClosedSet

  function Packages5(): set<string> {
    {"apache-airflow-providers-dpone", "dpone", "dpone-airflow-pack", "dpone-mssql-sqlclient", "dpone-native-accel"}
  }

  lemma FivePackages()
    ensures forall p :: p in Packages5() <==> p in EXPECTED_DISTRIBUTIONS
  {
    var e := EXPECTED_DISTRIBUTIONS;
    assert e[0] in e && e[1] in e && e[2] in e && e[3] in e && e[4] in e;
  }

  ghost predicate HasSuffix(name: string, suffix: string) {
    exists stem: string :: name == stem + suffix
  }

  lemma SuffixIsEnding(name: string, suffix: string)
    ensures HasSuffix(name, suffix) <==> EndsWith(name, suffix)
  {
    if EndsWith(name, suffix) {
      assert name == name[..|name| - |suffix|] + suffix;
    }
  }

  /** A name is parsed as a wheel's or as an sdist's by its ending, and its type follows the ending. */
  lemma ParseExactly(parser: FilenameParser, name: string)
    ensures parser.Parse(name)
         == if HasSuffix(name, ".whl") then parser.wheel(name)
            else if HasSuffix(name, ".tar.gz") || HasSuffix(name, ".zip") then parser.sdist(name)
            else None
    ensures ArtifactType(name)
         == if HasSuffix(name, ".whl") then "wheel"
            else if HasSuffix(name, ".tar.gz") then "sdist"
            else "unsupported_sdist"
  {
    SuffixIsEnding(name, ".whl");
    SuffixIsEnding(name, ".tar.gz");
    SuffixIsEnding(name, ".zip");
    hide EndsWith, HasSuffix;
  }

  // The releases.

  ghost predicate InFileOrder(candidates: seq<CandidateArtifact>) {
    forall i, j | 0 <= i < j < |candidates| ::
      && StringLeq(candidates[i].filename, candidates[j].filename)
      && (candidates[i].filename == candidates[j].filename ==> StringLeq(candidates[i].sha256, candidates[j].sha256))
  }

  /** There is a release for every package and version of an artifact, and for no other. */
  lemma ReleasePerKey(artifacts: seq<Artifact>, package: string, version: string)
    ensures var releases := Grouped(artifacts);
            (exists i | 0 <= i < |releases| :: releases[i].package == package && releases[i].version == version)
            <==> exists k | 0 <= k < |artifacts| ::
                   artifacts[k].package == package && artifacts[k].version == version
  {
    var releases := Grouped(artifacts);
    var keys := InventoryClosedSet.GroupedKeys(artifacts);
    if (package, version) in KeysOf(artifacts) {
      var _ := KeyHasArtifact(artifacts, (package, version));
    }
    hide Grouped, KeysOf;
    forall i | 0 <= i < |releases| ensures releases[i].package == keys[i].0 && releases[i].version == keys[i].1 {
    }
    if (package, version) in keys {
      var i :| 0 <= i < |keys| && keys[i] == (package, version);
    }
    assert forall i | 0 <= i < |keys| :: keys[i] in keys;
    forall k | 0 <= k < |artifacts| ensures artifacts[k].Key() in KeysOf(artifacts) {
    }
  }

  /** A release lists the artifacts of its package and version, by filename. */
  lemma ReleasesExactly(artifacts: seq<Artifact>)
    ensures forall r | r in Grouped(artifacts) ::
              InFileOrder(r.candidates) && forall c :: c in r.candidates <==> ListedIn(artifacts, r, c)
  {
    var releases := Grouped(artifacts);
    var keys := InventoryClosedSet.GroupedKeys(artifacts);
    hide Grouped, KeysOf, ReleaseOf, ListedIn, InFileOrder;
    forall i | 0 <= i < |releases|
      ensures InFileOrder(releases[i].candidates)
      ensures forall c :: c in releases[i].candidates <==> ListedIn(artifacts, releases[i], c)
    {
      ReleaseLists(artifacts, keys[i]);
    }
  }

  ghost predicate ListedIn(artifacts: seq<Artifact>, r: Release, c: CandidateArtifact) {
    exists k | 0 <= k < |artifacts| ::
      && artifacts[k].package == r.package && artifacts[k].version == r.version
      && artifacts[k].filename == c.filename && artifacts[k].sha256 == c.sha256
  }

  lemma ReleaseLists(artifacts: seq<Artifact>, key: Key)
    ensures var r := ReleaseOf(artifacts, key);
            && r.package == key.0 && r.version == key.1 && InFileOrder(r.candidates)
            && forall c :: c in r.candidates <==> ListedIn(artifacts, r, c)
  {
    var r, cs := ReleaseOf(artifacts, key), CandidatesOf(artifacts, key);
    CandidateOrder();
    SortSorts(cs, CandidateLeq);
    SortPermutes(cs, CandidateLeq);
    PermutationBasics(r.candidates, cs);
    forall c ensures c in cs <==> ListedIn(artifacts, r, c) {
      InventoryValidation.CandidateFrom(artifacts, key, c);
    }
    hide Sort, CandidatesOf, TotalOrder;
    forall i, j | 0 <= i < j < |r.candidates| ensures CandidateLeq(r.candidates[i], r.candidates[j]) {
    }
    hide StringLeq;
    SortedByFile(r.candidates);
  }

  lemma SortedByFile(candidates: seq<CandidateArtifact>)
    requires Sorted(candidates, CandidateLeq)
    ensures InFileOrder(candidates)
  {
    forall i, j | 0 <= i < j < |candidates|
      ensures StringLeq(candidates[i].filename, candidates[j].filename)
      ensures candidates[i].filename == candidates[j].filename ==>
                StringLeq(candidates[i].sha256, candidates[j].sha256)
    {
      assert CandidateLeq(candidates[i], candidates[j]);
      StringTotal(candidates[i].filename, candidates[i].filename);
    }
  }

  // The blockers of the closed-set validation.

  ghost function Endings(candidates: seq<CandidateArtifact>, suffix: string): nat {
    if candidates == [] then 0
    else (if HasSuffix(candidates[0].filename, suffix) then 1 else 0) + Endings(candidates[1..], suffix)
  }

  lemma {:induction false} EndingsCounted(candidates: seq<CandidateArtifact>, suffix: string)
    ensures InventoryValidation.CountSuffix(candidates, suffix) == Endings(candidates, suffix)
  {
    if candidates != [] {
      EndingsCounted(candidates[1..], suffix);
      SuffixIsEnding(candidates[0].filename, suffix);
      hide HasSuffix, EndsWith;
    }
  }

  function Unexpected(releases: seq<Release>): nat {
    if releases == [] then 0
    else (if releases[0].package in Packages5() then 0 else 1) + Unexpected(releases[1..])
  }

  lemma {:induction false} UnexpectedCounted(releases: seq<Release>)
    ensures |Filter(releases, (r: Release) => r.package !in EXPECTED_DISTRIBUTIONS)| == Unexpected(releases)
  {
    FivePackages();
    hide Packages5, EXPECTED_DISTRIBUTIONS;
    if releases != [] {
      UnexpectedCounted(releases[1..]);
    }
  }

  /** Exactly the blockers that a list of releases gets. */
  ghost predicate Objection(b: Blocker, releases: seq<Release>, version: string) {
    match b
    case ArtifactCountMismatch(expected, actual) => expected == 10 != actual && actual == |Flatten(releases)|
    case DistributionCountMismatch(expected, actual) => expected == 5 != actual && actual == |releases|
    case PackageSetMismatch(missing, unexpected) =>
      && unexpected == Unexpected(releases) && (missing != [] || unexpected > 0)
      && Sorted(missing, StringLeq) && NoDuplicates(missing)
      && forall p :: p in missing <==> p in Packages5() && forall r | r in releases :: r.package != p
    case PackageUnexpected(r) => r in releases && r.package !in Packages5()
    case VersionMismatch(r, expected) => r in releases && expected == version != r.version
    case WheelCountMismatch(r, actual) => r in releases && actual == Endings(r.candidates, ".whl") != 1
    case WheelMissing(r) => r in releases && Endings(r.candidates, ".whl") == 0
    case SdistCountMismatch(r, actual) => r in releases && actual == Endings(r.candidates, ".tar.gz") != 1
    case SdistMissing(r) => r in releases && Endings(r.candidates, ".tar.gz") == 0
    case SdistFormatUnsupported(name) =>
      exists r, c | r in releases && c in r.candidates :: c.filename == name && HasSuffix(name, ".zip")
    case _ => false
  }

  lemma {:induction false} ZipMembers(candidates: seq<CandidateArtifact>, b: Blocker)
    ensures b in InventoryValidation.UnsupportedZips(candidates)
            <==> && b.SdistFormatUnsupported? && HasSuffix(b.filename, ".zip")
                 && exists c | c in candidates :: c.filename == b.filename
  {
    hide HasSuffix, EndsWith;
    if candidates != [] {
      var init, last := candidates[..|candidates| - 1], candidates[|candidates| - 1];
      ZipMembers(init, b);
      SuffixIsEnding(last.filename, ".zip");
      FrontAndLast(candidates);
      assert forall c :: c in candidates <==> c in init || c == last;
    }
  }

  /** The blockers of one release. */
  ghost predicate ReleaseObjection(b: Blocker, r: Release, version: string) {
    match b
    case VersionMismatch(of, expected) => of == r && expected == version != r.version
    case WheelCountMismatch(of, actual) => of == r && actual == Endings(r.candidates, ".whl") != 1
    case WheelMissing(of) => of == r && Endings(r.candidates, ".whl") == 0
    case SdistCountMismatch(of, actual) => of == r && actual == Endings(r.candidates, ".tar.gz") != 1
    case SdistMissing(of) => of == r && Endings(r.candidates, ".tar.gz") == 0
    case SdistFormatUnsupported(name) =>
      HasSuffix(name, ".zip") && exists c | c in r.candidates :: c.filename == name
    case _ => false
  }

  lemma ReleaseMembers(r: Release, version: string, b: Blocker)
    ensures b in InventoryValidation.ReleaseBlockers(r, version) <==> ReleaseObjection(b, r, version)
  {
    hide InventoryValidation.UnsupportedZips, InventoryValidation.CountSuffix, HasSuffix, Endings;
    EndingsCounted(r.candidates, ".whl");
    EndingsCounted(r.candidates, ".tar.gz");
    ZipMembers(r.candidates, b);
    WheelMembers(r, b);
    SdistMembers(r, b);
    hide InventoryValidation.WheelBlockers, InventoryValidation.SdistBlockers;
  }

  lemma WheelMembers(r: Release, b: Blocker)
    ensures b in InventoryValidation.WheelBlockers(r)
            <==> var n := InventoryValidation.CountSuffix(r.candidates, WHEEL);
                 (b == WheelCountMismatch(r, n) && n != 1) || (b == WheelMissing(r) && n == 0)
  {
    hide InventoryValidation.CountSuffix;
  }

  lemma SdistMembers(r: Release, b: Blocker)
    ensures b in InventoryValidation.SdistBlockers(r)
            <==> var n := InventoryValidation.CountSuffix(r.candidates, SDIST);
                 (b == SdistCountMismatch(r, n) && n != 1) || (b == SdistMissing(r) && n == 0)
  {
    hide InventoryValidation.CountSuffix;
  }

  lemma {:induction false} PerReleaseMembers(releases: seq<Release>, version: string, b: Blocker)
    ensures b in InventoryValidation.PerRelease(releases, version)
            <==> exists r | r in releases :: ReleaseObjection(b, r, version)
  {
    hide InventoryValidation.ReleaseBlockers, ReleaseObjection;
    if releases != [] {
      var init, last := releases[..|releases| - 1], releases[|releases| - 1];
      PerReleaseMembers(init, version, b);
      ReleaseMembers(last, version, b);
      FrontAndLast(releases);
      assert forall r :: r in releases <==> r in init || r == last;
    }
  }

  lemma ExpectedInOrder()
    ensures Sorted(EXPECTED_DISTRIBUTIONS, StringLeq) && NoDuplicates(EXPECTED_DISTRIBUTIONS)
  {
    InventoryClosedSet.ExpectedCounts();
    var e := EXPECTED_DISTRIBUTIONS;
    ExpectedSteps();
    hide StringLeq, EXPECTED_DISTRIBUTIONS;
    StringTransitive(e[0], e[1], e[2]);
    StringTransitive(e[1], e[2], e[3]);
    StringTransitive(e[0], e[2], e[3]);
    StringTransitive(e[2], e[3], e[4]);
    StringTransitive(e[1], e[2], e[4]);
    StringTransitive(e[0], e[1], e[4]);
  }

  lemma ExpectedSteps()
    ensures var e := EXPECTED_DISTRIBUTIONS;
            && |e| == 5 && StringLeq(e[0], e[1]) && StringLeq(e[1], e[2]) && StringLeq(e[2], e[3])
            && StringLeq(e[3], e[4])
  {
    hide StringLeq;
    FirstDifference("apache-airflow-providers-dpone", "dpone", 0);
    PrefixFirst("dpone", "-airflow-pack");
    assert "dpone" + "-airflow-pack" == "dpone-airflow-pack";
    FirstDifference("dpone-airflow-pack", "dpone-mssql-sqlclient", 6);
    FirstDifference("dpone-mssql-sqlclient", "dpone-native-accel", 6);
  }

  lemma PrefixFirst(a: string, b: string)
    ensures StringLeq(a, a + b)
  {
    StringLeqExactly(a, a + b);
  }

  lemma FirstDifference(a: string, b: string, k: nat)
    requires k < |a| && k < |b| && a[..k] == b[..k] && a[k] < b[k]
    ensures StringLeq(a, b)
  {
    StringLeqExactly(a, b);
  }

  function MissingPackages(releases: seq<Release>): seq<string> {
    Filter(EXPECTED_DISTRIBUTIONS, p => p !in InventoryValidation.Packages(releases))
  }

  ghost predicate ListsMissing(missing: seq<string>, releases: seq<Release>) {
    && Sorted(missing, StringLeq) && NoDuplicates(missing)
    && forall p :: p in missing <==> p in Packages5() && forall r | r in releases :: r.package != p
  }

  lemma MissingListed(releases: seq<Release>)
    ensures ListsMissing(MissingPackages(releases), releases)
  {
    var absent := p => p !in InventoryValidation.Packages(releases);
    ExpectedInOrder();
    FivePackages();
    hide EXPECTED_DISTRIBUTIONS, StringLeq, Packages5;
    FilterSorted(EXPECTED_DISTRIBUTIONS, absent, StringLeq);
    FilterDistinct(EXPECTED_DISTRIBUTIONS, absent);
    forall p
      ensures p in MissingPackages(releases) <==> p in Packages5() && forall r | r in releases :: r.package != p
    {
      FilterMember(EXPECTED_DISTRIBUTIONS, absent, p);
    }
  }

  lemma MissingUnique(a: seq<string>, b: seq<string>, releases: seq<Release>)
    requires ListsMissing(a, releases) && ListsMissing(b, releases)
    ensures a == b
  {
    hide StringLeq, Packages5;
    SameElementsSamePermutation(a, b);
    StringOrder();
    SortedUnique(a, b, StringLeq);
  }

  lemma {:induction false} UnexpectedPositive(releases: seq<Release>)
    ensures Unexpected(releases) > 0 <==> exists r | r in releases :: r.package !in Packages5()
  {
    hide Packages5;
    if releases != [] {
      UnexpectedPositive(releases[1..]);
      assert releases == [releases[0]] + releases[1..];
    }
  }

  lemma SomeMember<T>(s: seq<T>)
    ensures s == [] || exists x :: x in s
  {
    if s != [] {
      assert s[0] in s;
    }
  }

  /** The package set is the expected one exactly when nothing is missing or unexpected. */
  lemma SetExpected(releases: seq<Release>)
    ensures InventoryValidation.Packages(releases) == Elements(EXPECTED_DISTRIBUTIONS)
            <==> MissingPackages(releases) == [] && Unexpected(releases) == 0
  {
    FivePackages();
    MissingListed(releases);
    UnexpectedPositive(releases);
    hide EXPECTED_DISTRIBUTIONS, StringLeq, Packages5;
    var actual := InventoryValidation.Packages(releases);
    if MissingPackages(releases) == [] && Unexpected(releases) == 0 {
      forall p ensures p in actual <==> p in EXPECTED_DISTRIBUTIONS {
        assert p !in MissingPackages(releases);
      }
    }
    if actual == Elements(EXPECTED_DISTRIBUTIONS) {
      forall r | r in releases ensures r.package in Packages5() {
        assert r.package in actual;
      }
      forall p ensures p !in MissingPackages(releases) {
        if p in Packages5() {
          assert p in Elements(EXPECTED_DISTRIBUTIONS);
        }
      }
      SomeMember(MissingPackages(releases));
    }
  }

  /** The blockers of the set of packages. */
  ghost predicate PackageObjection(b: Blocker, releases: seq<Release>) {
    match b
    case PackageSetMismatch(missing, unexpected) =>
      && unexpected == Unexpected(releases) && (missing != [] || unexpected > 0)
      && ListsMissing(missing, releases)
    case PackageUnexpected(r) => r in releases && r.package !in Packages5()
    case _ => false
  }

  lemma PackageMembers(releases: seq<Release>, b: Blocker)
    ensures b in InventoryValidation.PackageBlockers(releases) <==> PackageObjection(b, releases)
  {
    SetExpected(releases);
    MissingListed(releases);
    UnexpectedCounted(releases);
    UnexpectedPositive(releases);
    FivePackages();
    hide EXPECTED_DISTRIBUTIONS, StringLeq, Packages5, Unexpected;
    if b.PackageSetMismatch? && ListsMissing(b.missing, releases) {
      MissingUnique(b.missing, MissingPackages(releases), releases);
    }
    hide ListsMissing;
    if b.PackageUnexpected? {
      FilterMember(releases, (r: Release) => r.package !in EXPECTED_DISTRIBUTIONS, b.release);
    }
  }

  /** Validation reports exactly these. */
  lemma ObjectionsExactly(releases: seq<Release>, version: string, b: Blocker)
    ensures b in InventoryValidation.Blockers(releases, version) <==> Objection(b, releases, version)
  {
    InventoryClosedSet.CandidateTotals(releases);
    PackageMembers(releases, b);
    PerReleaseMembers(releases, version, b);
    hide InventoryValidation.PackageBlockers, InventoryValidation.PerRelease, Flatten, Packages5, StringLeq, Sorted;
    hide InventoryValidation.CandidateTotal, Unexpected, Endings, HasSuffix;
  }
}
