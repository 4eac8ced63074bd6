/** When exactly does validation pass? */
module InventoryClosedSet {
  import opened Ordering
  import opened InventoryContract
  import opened InventoryGrouping
  import opened InventoryValidation

  /** The artifact carries what its own filename says, as every scanned artifact does. */
  ghost predicate NamedBy(parser: FilenameParser, a: Artifact) {
    parser.Parse(a.filename) == Some(Parsed(a.package, a.version)) && a.artifactType == ArtifactType(a.filename)
  }

  ghost predicate AllNamedBy(parser: FilenameParser, artifacts: seq<Artifact>) {
    forall i | 0 <= i < |artifacts| :: NamedBy(parser, artifacts[i])
  }

  function Slot(a: Artifact): (string, string) { (a.package, a.artifactType) }

  function Slots(artifacts: seq<Artifact>): (r: seq<(string, string)>)
    ensures |r| == |artifacts| && forall i | 0 <= i < |r| :: r[i] == Slot(artifacts[i])
  {
    if artifacts == [] then [] else [Slot(artifacts[0])] + Slots(artifacts[1..])
  }

  const EXPECTED_SLOTS: set<(string, string)> :=
    set p, k | p in EXPECTED_DISTRIBUTIONS && k in {"wheel", "sdist"} :: (p, k)

  /** One wheel and one sdist of each expected package at the expected version, and nothing
      else: the artifacts correspond one to one to the ten slots. */
  ghost predicate ClosedSet(artifacts: seq<Artifact>, expectedVersion: string) {
    && (forall i | 0 <= i < |artifacts| :: artifacts[i].version == expectedVersion)
    && NoDuplicates(Slots(artifacts))
    && Elements(Slots(artifacts)) == EXPECTED_SLOTS
  }

  lemma ExpectedCounts()
    ensures NoDuplicates(EXPECTED_DISTRIBUTIONS) && |Elements(EXPECTED_DISTRIBUTIONS)| == 5
    ensures |EXPECTED_SLOTS| == 10
  {
    var e := EXPECTED_DISTRIBUTIONS;
    assert |e[0]| == 30 && |e[1]| == 5 && |e[2]| == 18 && |e[3]| == 21;
    assert e[4] == "dpone-native-accel" && |e[4]| == 18;
    assert e[2][6] == 'a' && e[4][6] == 'n';
    assert NoDuplicates(e);
    DistinctCardinality(e);
    var slots := seq(10, (i: nat) requires i < 10 => (e[i / 2], if i % 2 == 0 then "wheel" else "sdist"));
    forall i, j | 0 <= i < j < 10 ensures slots[i] != slots[j] {
      assert slots[i].0 == e[i / 2] && slots[j].0 == e[j / 2];
    }
    DistinctCardinality(slots);
    forall s | s in EXPECTED_SLOTS ensures s in Elements(slots) {
      var k :| 0 <= k < 5 && e[k] == s.0;
      assert slots[2 * k] == (e[k], "wheel");
      assert slots[2 * k + 1] == (e[k], "sdist");
    }
    assert Elements(slots) == EXPECTED_SLOTS;
  }

  // One release.

  ghost predicate KeyPasses(artifacts: seq<Artifact>, key: Key, expectedVersion: string) {
    && key.1 == expectedVersion
    && ExactlyOne(artifacts, (a: Artifact) => IsOf(a, key, WHEEL))
    && ExactlyOne(artifacts, (a: Artifact) => IsOf(a, key, SDIST))
    && (forall i | 0 <= i < |artifacts| && artifacts[i].Key() == key :: !EndsWith(artifacts[i].filename, ZIP))
  }

  lemma NoBlockersOfRelease(artifacts: seq<Artifact>, key: Key, expectedVersion: string)
    ensures ReleaseBlockers(ReleaseOf(artifacts, key), expectedVersion) == []
            <==> KeyPasses(artifacts, key, expectedVersion)
  {
    hide CandidatesOf, CountSuffix, ExactlyOne, EndsWith, Sort;
    CountInRelease(artifacts, key, WHEEL);
    CountInRelease(artifacts, key, SDIST);
    ZipsInRelease(artifacts, key);
  }

  /** The releases, one for each key. */
  lemma GroupedKeys(artifacts: seq<Artifact>) returns (keys: seq<Key>)
    ensures |Grouped(artifacts)| == |keys| && NoDuplicates(keys)
    ensures forall key :: key in keys <==> key in KeysOf(artifacts)
    ensures forall i | 0 <= i < |keys| :: Grouped(artifacts)[i] == ReleaseOf(artifacts, keys[i])
    ensures forall i | 0 <= i < |keys| :: Grouped(artifacts)[i].package == keys[i].0
  {
    keys := Sort(KeysOf(artifacts), PairLeq);
    SortPermutes(KeysOf(artifacts), PairLeq);
    SortKeepsDistinct(KeysOf(artifacts), PairLeq);
  }

  lemma ReleasesPass(artifacts: seq<Artifact>, expectedVersion: string)
    ensures PerRelease(Grouped(artifacts), expectedVersion) == []
            <==> forall key | key in KeysOf(artifacts) :: KeyPasses(artifacts, key, expectedVersion)
  {
    hide Grouped, KeyPasses, ReleaseBlockers, PerRelease, KeysOf, ReleaseOf;
    var keys := GroupedKeys(artifacts);
    var releases := Grouped(artifacts);
    NoReleaseBlockers(releases, expectedVersion);
    forall i | 0 <= i < |keys|
      ensures ReleaseBlockers(releases[i], expectedVersion) == [] <==> KeyPasses(artifacts, keys[i], expectedVersion)
    {
      NoBlockersOfRelease(artifacts, keys[i], expectedVersion);
    }
    if PerRelease(releases, expectedVersion) == [] {
      forall key | key in KeysOf(artifacts) ensures KeyPasses(artifacts, key, expectedVersion) {
        assert key in keys;
      }
    }
    if forall key | key in KeysOf(artifacts) :: KeyPasses(artifacts, key, expectedVersion) {
      forall i | 0 <= i < |releases| ensures ReleaseBlockers(releases[i], expectedVersion) == [] {
        assert keys[i] in keys;
      }
    }
  }

  // Keys and slots.

  lemma ArtifactInGroup(artifacts: seq<Artifact>, i: nat)
    requires i < |artifacts|
    ensures artifacts[i].Key() in KeysOf(artifacts)
    ensures artifacts[i].package in Packages(Grouped(artifacts))
  {
    hide Grouped;
    var keys := GroupedKeys(artifacts);
    assert artifacts[i].Key() in keys;
    var k :| 0 <= k < |keys| && keys[k] == artifacts[i].Key();
    assert Grouped(artifacts)[k] in Grouped(artifacts);
  }

  lemma PackageHasArtifact(artifacts: seq<Artifact>, package: string) returns (i: nat)
    requires package in Packages(Grouped(artifacts))
    ensures i < |artifacts| && artifacts[i].package == package
  {
    hide Grouped, KeysOf;
    var keys := GroupedKeys(artifacts);
    var releases := Grouped(artifacts);
    var k :| 0 <= k < |releases| && releases[k].package == package;
    assert keys[k] in keys;
    i := KeyHasArtifact(artifacts, keys[k]);
  }

  lemma {:induction false} CandidateTotals(releases: seq<Release>)
    ensures |Flatten(releases)| == CandidateTotal(releases)
  {
    if releases != [] {
      var init, last := releases[..|releases| - 1], releases[|releases| - 1];
      CandidateTotals(init);
      assert releases == init + [last];
      FlattenAppend(init, last);
    }
  }

  lemma {:induction false} FlattenAppend(releases: seq<Release>, last: Release)
    ensures Flatten(releases + [last]) == Flatten(releases) + last.candidates
  {
    if releases == [] {
      assert Flatten([last]) == last.candidates + Flatten([last][1..]);
    } else {
      assert (releases + [last])[0] == releases[0] && (releases + [last])[1..] == releases[1..] + [last];
      FlattenAppend(releases[1..], last);
    }
  }

  lemma {:induction false} CandidatesLength(artifacts: seq<Artifact>)
    ensures |Candidates(artifacts)| == |artifacts|
  {
    if artifacts != [] {
      CandidatesLength(artifacts[..|artifacts| - 1]);
    }
  }

  lemma TotalIsArtifactCount(artifacts: seq<Artifact>)
    ensures CandidateTotal(Grouped(artifacts)) == |artifacts|
  {
    GroupingConserves(artifacts);
    PermutationBasics(Flatten(Grouped(artifacts)), Candidates(artifacts));
    CandidateTotals(Grouped(artifacts));
    CandidatesLength(artifacts);
  }

  function KindOf(suffix: string): string {
    if suffix == WHEEL then "wheel" else "sdist"
  }

  lemma TypeBySuffix(a: Artifact, parser: FilenameParser)
    requires NamedBy(parser, a)
    ensures a.artifactType == "wheel" <==> EndsWith(a.filename, WHEEL)
    ensures a.artifactType == "sdist" <==> EndsWith(a.filename, SDIST)
    ensures a.artifactType in {"wheel", "sdist"} <==> !EndsWith(a.filename, ZIP)
  {
    SuffixesExclude(a.filename);
    assert "wheel"[0] == 'w' && "sdist"[0] == 's' && "unsupported_sdist"[0] == 'u';
  }

  /** Passing validation fills each slot of a package exactly once. */
  lemma PassedSlots(artifacts: seq<Artifact>, expectedVersion: string, parser: FilenameParser)
    requires AllNamedBy(parser, artifacts)
    requires forall key | key in KeysOf(artifacts) :: KeyPasses(artifacts, key, expectedVersion)
    requires Packages(Grouped(artifacts)) == Elements(EXPECTED_DISTRIBUTIONS)
    ensures ClosedSet(artifacts, expectedVersion)
  {
    hide KeyPasses, Grouped, KeysOf, NamedBy, Packages;
    var slots := Slots(artifacts);
    forall i | 0 <= i < |artifacts|
      ensures artifacts[i].version == expectedVersion && slots[i] in EXPECTED_SLOTS
    {
      SlotExpected(artifacts, expectedVersion, parser, i);
    }
    forall i, j | 0 <= i < j < |artifacts| ensures slots[i] != slots[j] {
      if slots[i] == slots[j] {
        SlotTakenOnce(artifacts, expectedVersion, parser, i, j);
      }
    }
    forall s | s in EXPECTED_SLOTS ensures s in Elements(slots) {
      SlotFilled(artifacts, expectedVersion, parser, s);
    }
  }

  lemma SlotExpected(artifacts: seq<Artifact>, expectedVersion: string, parser: FilenameParser, i: nat)
    requires AllNamedBy(parser, artifacts)
    requires forall key | key in KeysOf(artifacts) :: KeyPasses(artifacts, key, expectedVersion)
    requires Packages(Grouped(artifacts)) == Elements(EXPECTED_DISTRIBUTIONS)
    requires i < |artifacts|
    ensures artifacts[i].version == expectedVersion && Slot(artifacts[i]) in EXPECTED_SLOTS
  {
    hide Grouped, KeysOf, ExactlyOne, EndsWith, Packages;
    ArtifactInGroup(artifacts, i);
    assert KeyPasses(artifacts, artifacts[i].Key(), expectedVersion);
    TypeBySuffix(artifacts[i], parser);
    assert artifacts[i].package in Elements(EXPECTED_DISTRIBUTIONS);
  }

  lemma SlotTakenOnce(artifacts: seq<Artifact>, expectedVersion: string, parser: FilenameParser, i: nat, j: nat)
    requires AllNamedBy(parser, artifacts)
    requires forall key | key in KeysOf(artifacts) :: KeyPasses(artifacts, key, expectedVersion)
    requires i < j < |artifacts|
    ensures Slot(artifacts[i]) != Slot(artifacts[j])
  {
    hide KeysOf, EndsWith, NamedBy, KeyPasses, IsOf;
    if Slot(artifacts[i]) == Slot(artifacts[j]) {
      ArtifactInGroup(artifacts, i);
      ArtifactInGroup(artifacts, j);
      TypedIsOf(artifacts, expectedVersion, parser, i);
      TypedIsOf(artifacts, expectedVersion, parser, j);
      var suffix := if artifacts[i].artifactType == "wheel" then WHEEL else SDIST;
      OneOf(artifacts, artifacts[i].Key(), expectedVersion, suffix, i, j);
    }
  }

  lemma TypedIsOf(artifacts: seq<Artifact>, expectedVersion: string, parser: FilenameParser, i: nat)
    requires i < |artifacts| && NamedBy(parser, artifacts[i])
    requires KeyPasses(artifacts, artifacts[i].Key(), expectedVersion)
    ensures artifacts[i].version == expectedVersion
    ensures IsOf(artifacts[i], artifacts[i].Key(), if artifacts[i].artifactType == "wheel" then WHEEL else SDIST)
  {
    hide ExactlyOne, EndsWith, NamedBy;
    TypeBySuffix(artifacts[i], parser);
  }

  lemma OneOf(artifacts: seq<Artifact>, key: Key, expectedVersion: string, suffix: string, i: nat, j: nat)
    requires i < j < |artifacts| && KeyPasses(artifacts, key, expectedVersion) && suffix in {WHEEL, SDIST}
    ensures !(IsOf(artifacts[i], key, suffix) && IsOf(artifacts[j], key, suffix))
  {
    hide EndsWith;
    assert ExactlyOne(artifacts, (a: Artifact) => IsOf(a, key, suffix));
  }

  lemma SlotFilled(artifacts: seq<Artifact>, expectedVersion: string, parser: FilenameParser, s: (string, string))
    requires AllNamedBy(parser, artifacts)
    requires forall key | key in KeysOf(artifacts) :: KeyPasses(artifacts, key, expectedVersion)
    requires Packages(Grouped(artifacts)) == Elements(EXPECTED_DISTRIBUTIONS)
    requires s in EXPECTED_SLOTS
    ensures s in Elements(Slots(artifacts))
  {
    hide KeysOf, EndsWith, NamedBy, Grouped, Packages, KeyPasses;
    assert s.0 in Elements(EXPECTED_DISTRIBUTIONS);
    var i := PackageHasArtifact(artifacts, s.0);
    ArtifactInGroup(artifacts, i);
    var suffix := if s.1 == "wheel" then WHEEL else SDIST;
    var k := SomeOf(artifacts, artifacts[i].Key(), expectedVersion, suffix);
    TypeBySuffix(artifacts[k], parser);
    assert WHEEL[1] == 'w' && SDIST[1] == 't';
    assert Slots(artifacts)[k] == s;
    assert Slots(artifacts)[k] in Slots(artifacts);
  }

  lemma SomeOf(artifacts: seq<Artifact>, key: Key, expectedVersion: string, suffix: string) returns (k: nat)
    requires KeyPasses(artifacts, key, expectedVersion) && suffix in {WHEEL, SDIST}
    ensures k < |artifacts| && IsOf(artifacts[k], key, suffix)
  {
    hide EndsWith;
    var p := (a: Artifact) => IsOf(a, key, suffix);
    assert ExactlyOne(artifacts, p);
    k :| 0 <= k < |artifacts| && p(artifacts[k]);
  }

  /** The other direction: a closed set passes. */
  lemma ClosedKeyPasses(artifacts: seq<Artifact>, expectedVersion: string, parser: FilenameParser, key: Key)
    requires AllNamedBy(parser, artifacts) && ClosedSet(artifacts, expectedVersion)
    requires key in KeysOf(artifacts)
    ensures KeyPasses(artifacts, key, expectedVersion)
  {
    var i := KeyHasArtifact(artifacts, key);
    assert Slots(artifacts)[i] in Elements(Slots(artifacts));
    assert key.0 in EXPECTED_DISTRIBUTIONS;
    ClosedSlotUnique(artifacts, expectedVersion, parser, key, WHEEL);
    ClosedSlotUnique(artifacts, expectedVersion, parser, key, SDIST);
    forall j | 0 <= j < |artifacts| && artifacts[j].Key() == key ensures !EndsWith(artifacts[j].filename, ZIP) {
      assert Slots(artifacts)[j] in Elements(Slots(artifacts));
      TypeBySuffix(artifacts[j], parser);
    }
  }

  lemma ClosedSlotUnique(artifacts: seq<Artifact>, expectedVersion: string, parser: FilenameParser, key: Key,
                         suffix: string)
    requires AllNamedBy(parser, artifacts) && ClosedSet(artifacts, expectedVersion)
    requires key.0 in EXPECTED_DISTRIBUTIONS && key.1 == expectedVersion && suffix in {WHEEL, SDIST}
    ensures ExactlyOne(artifacts, (a: Artifact) => IsOf(a, key, suffix))
  {
    var slots := Slots(artifacts);
    assert WHEEL[1] == 'w' && SDIST[1] == 't';
    assert (key.0, KindOf(suffix)) in EXPECTED_SLOTS;
    assert (key.0, KindOf(suffix)) in Elements(slots);
    var k :| 0 <= k < |slots| && slots[k] == (key.0, KindOf(suffix));
    TypeBySuffix(artifacts[k], parser);
    assert "wheel"[0] == 'w' && "sdist"[0] == 's';
    assert IsOf(artifacts[k], key, suffix);
    forall i, j | 0 <= i < j < |artifacts|
      ensures !(IsOf(artifacts[i], key, suffix) && IsOf(artifacts[j], key, suffix))
    {
      TypeBySuffix(artifacts[i], parser);
      TypeBySuffix(artifacts[j], parser);
      assert slots[i] != slots[j];
    }
  }

  lemma ClosedSetCounts(artifacts: seq<Artifact>, expectedVersion: string)
    requires ClosedSet(artifacts, expectedVersion)
    ensures |artifacts| == 10
    ensures Packages(Grouped(artifacts)) == Elements(EXPECTED_DISTRIBUTIONS)
    ensures |Grouped(artifacts)| == 5
  {
    hide KeysOf, Grouped, Packages, Slots;
    ExpectedCounts();
    DistinctCardinality(Slots(artifacts));
    forall p ensures p in Packages(Grouped(artifacts)) <==> p in Elements(EXPECTED_DISTRIBUTIONS) {
      ClosedPackages(artifacts, expectedVersion, p);
    }
    assert Packages(Grouped(artifacts)) == Elements(EXPECTED_DISTRIBUTIONS);
    ReleasesPerPackage(artifacts, expectedVersion);
  }

  lemma ClosedPackages(artifacts: seq<Artifact>, expectedVersion: string, p: string)
    requires ClosedSet(artifacts, expectedVersion)
    ensures p in Packages(Grouped(artifacts)) <==> p in Elements(EXPECTED_DISTRIBUTIONS)
  {
    hide KeysOf, Grouped, Packages, NoDuplicates;
    if p in Packages(Grouped(artifacts)) {
      var i := PackageHasArtifact(artifacts, p);
      assert Slots(artifacts)[i] in Elements(Slots(artifacts));
    }
    if p in Elements(EXPECTED_DISTRIBUTIONS) {
      assert (p, "wheel") in EXPECTED_SLOTS;
      assert (p, "wheel") in Elements(Slots(artifacts));
      var i :| 0 <= i < |artifacts| && Slots(artifacts)[i] == (p, "wheel");
      ArtifactInGroup(artifacts, i);
    }
  }

  /** With a single version there is one release for each package. */
  lemma ReleasesPerPackage(artifacts: seq<Artifact>, version: string)
    requires forall i | 0 <= i < |artifacts| :: artifacts[i].version == version
    ensures |Grouped(artifacts)| == |Packages(Grouped(artifacts))|
  {
    hide Grouped, KeysOf, ReleaseOf;
    var keys := GroupedKeys(artifacts);
    var releases := Grouped(artifacts);
    var names := seq(|releases|, (i: nat) requires i < |releases| => releases[i].package);
    forall i, j | 0 <= i < j < |names| ensures names[i] != names[j] {
      assert keys[i] in KeysOf(artifacts) && keys[j] in KeysOf(artifacts);
      var a := KeyHasArtifact(artifacts, keys[i]);
      var b := KeyHasArtifact(artifacts, keys[j]);
      assert keys[i] != keys[j];
    }
    DistinctCardinality(names);
    forall p ensures p in Elements(names) <==> p in Packages(releases) {
      if p in Packages(releases) {
        var k :| 0 <= k < |releases| && releases[k].package == p;
        assert names[k] == p;
      }
    }
    assert Elements(names) == Packages(releases);
  }

  /** Validation passes exactly for the closed set. */
  lemma ExactClosedSet(artifacts: seq<Artifact>, expectedVersion: string, parser: FilenameParser)
    requires AllNamedBy(parser, artifacts)
    ensures Blockers(Grouped(artifacts), expectedVersion) == [] <==> ClosedSet(artifacts, expectedVersion)
  {
    hide KeysOf, Grouped, Packages, PerRelease, ClosedSet, KeyPasses, CandidateTotal, AllNamedBy;
    var releases := Grouped(artifacts);
    ReleasesPass(artifacts, expectedVersion);
    TotalIsArtifactCount(artifacts);
    if Blockers(releases, expectedVersion) == [] {
      assert PackageBlockers(releases) == [] && PerRelease(releases, expectedVersion) == [];
      PassedSlots(artifacts, expectedVersion, parser);
    }
    if ClosedSet(artifacts, expectedVersion) {
      ClosedSetCounts(artifacts, expectedVersion);
      forall key | key in KeysOf(artifacts) ensures KeyPasses(artifacts, key, expectedVersion) {
        ClosedKeyPasses(artifacts, expectedVersion, parser, key);
      }
    }
  }
}
