/** Reports, and the final revalidation that binds a decision to what was seen before. */
module InventoryRevalidation {
  import opened Digests
  import opened Ordering
  import opened FileSystem
  import opened SystemCalls
  import opened InventoryContract
  import opened InventoryNames
  import opened InventoryScan
  import opened InventorySnapshot
  import InventoryClosedSet
  import InventoryGrouping
  import InventoryValidation

  function ReportOf(scan: Scan, expectedVersion: string): Report {
    var count := if scan.entryCount != 10 then [EntryCountMismatch(10, scan.entryCount)] else [];
    Report(expectedVersion, scan.entryCount, scan.releases, scan.artifacts,
           Dedup(scan.blockers + count + InventoryValidation.Blockers(scan.releases, expectedVersion)),
           scan.sourceIdentity)
  }

  /** The report came out of a scan that ran from lo to hi. */
  ghost predicate Evaluated(h: History, lo: Instant, hi: Instant, report: Report, limits: Limits,
                            parser: FilenameParser, hash: HashFunction) {
    exists scan :: ScanFacts(h, lo, hi, scan, limits, parser, hash) && report == ReportOf(scan, report.expectedVersion)
  }

  /** `evaluate_candidate_inventory` */
  method EvaluateCandidateInventory(host: Host, expectedVersion: string, limits: Limits, parser: FilenameParser,
                                    hash: HashFunction, noFollow: bool)
    returns (report: Report)
    requires host.Valid()
    modifies host`now, host`faults, host`descriptors, host`fstats, host`nextFd
    ensures host.Valid() && host.Later() && host.descriptors == old(host.descriptors)
    ensures report.expectedVersion == expectedVersion
    ensures Evaluated(host.history, old(host.now), host.now, report, limits, parser, hash)
    ensures Quiet(host.history, old(host.now), host.now) && host.faults == old(host.faults) ==>
              report == ReportOf(ScanOf(host.history(host.now), limits, parser, hash, noFollow), expectedVersion)
  {
    hide Environment, Quiet, ScanFacts, ScanOf, InventoryValidation.Blockers, Dedup;
    var scan := ScanCandidateDirectory(host, limits, parser, hash, noFollow);
    var blockers := scan.blockers;
    if scan.entryCount != 10 {
      blockers := blockers + [EntryCountMismatch(10, scan.entryCount)];
    }
    var found := InventoryValidation.ValidateDistributionInventory(scan.releases, expectedVersion);
    blockers := blockers + found;
    ghost var count := if scan.entryCount != 10 then [EntryCountMismatch(10, scan.entryCount)] else [];
    assert blockers == scan.blockers + count + found;
    report := Report(expectedVersion, scan.entryCount, scan.releases, scan.artifacts, Dedup(blockers),
                     scan.sourceIdentity);
    assert report == ReportOf(scan, expectedVersion);
  }

  // What a report without blockers says.

  lemma ParsedIsNamed(parser: FilenameParser, artifacts: seq<Artifact>)
    requires InventorySnapshot.Parsed(parser, artifacts)
    ensures InventoryClosedSet.AllNamedBy(parser, artifacts)
  {
    forall i | 0 <= i < |artifacts| ensures InventoryClosedSet.NamedBy(parser, artifacts[i]) {
    }
  }

  /** GO: at one instant the directory held the closed set, whole and unmixed, and the report
      gives the size and digest of every file in it at that instant. */
  lemma PassingReport(h: History, lo: Instant, hi: Instant, report: Report, limits: Limits, parser: FilenameParser,
                      hash: HashFunction)
    returns (scan: Scan)
    requires Evaluated(h, lo, hi, report, limits, parser, hash) && report.blockers == []
    ensures report == ReportOf(scan, report.expectedVersion)
    ensures CleanScan(scan, parser, limits) && AtomicSnapshot(h, lo, hi, scan, hash)
    ensures InventoryClosedSet.ClosedSet(report.artifacts, report.expectedVersion)
  {
    hide AtomicSnapshot, InventoryClosedSet.ClosedSet, InventoryValidation.Blockers;
    scan :| ScanFacts(h, lo, hi, scan, limits, parser, hash) && report == ReportOf(scan, report.expectedVersion);
    assert scan.blockers == [] && InventoryValidation.Blockers(scan.releases, report.expectedVersion) == [];
    ParsedIsNamed(parser, scan.artifacts);
    InventoryClosedSet.ExactClosedSet(scan.artifacts, report.expectedVersion, parser);
  }

  /** Exactly when a still directory passes. */
  lemma CleanPasses(scan: Scan, expectedVersion: string, limits: Limits, parser: FilenameParser)
    requires CleanScan(scan, parser, limits)
    ensures ReportOf(scan, expectedVersion).blockers == []
            <==> InventoryClosedSet.ClosedSet(scan.artifacts, expectedVersion)
  {
    hide InventoryValidation.Blockers;
    ParsedIsNamed(parser, scan.artifacts);
    InventoryClosedSet.ExactClosedSet(scan.artifacts, expectedVersion, parser);
    if InventoryClosedSet.ClosedSet(scan.artifacts, expectedVersion) {
      InventoryClosedSet.ClosedSetCounts(scan.artifacts, expectedVersion);
    }
  }

  // The handoff from the initial report to the final one.

  /** `{artifact.filename: artifact for artifact in artifacts}` */
  function ByName(artifacts: seq<Artifact>): map<string, Artifact> {
    if artifacts == [] then map[]
    else ByName(artifacts[..|artifacts| - 1])[artifacts[|artifacts| - 1].filename := artifacts[|artifacts| - 1]]
  }

  predicate IdentityChanged(initial: seq<int>, current: seq<int>) {
    initial != [] && current != [] && initial != current
  }

  /** `_artifact_handoff_changed` */
  predicate ArtifactHandoffChanged(initial: Artifact, current: Artifact) {
    initial.ExactIdentity() != current.ExactIdentity()
    || IdentityChanged(initial.sourceIdentity, current.sourceIdentity)
  }

  predicate NameChanged(initial: map<string, Artifact>, current: map<string, Artifact>, name: string) {
    name !in initial || name !in current || ArtifactHandoffChanged(initial[name], current[name])
  }

  function Filenames(artifacts: seq<Artifact>): (r: seq<string>)
    ensures |r| == |artifacts| && forall k | 0 <= k < |r| :: r[k] == artifacts[k].filename
  {
    if artifacts == [] then [] else [artifacts[0].filename] + Filenames(artifacts[1..])
  }

  /** `changed_names`, sorted. */
  function ChangedNames(initial: Report, current: Report): seq<string> {
    var before, after := ByName(initial.artifacts), ByName(current.artifacts);
    Sort(Filter(Dedup(Filenames(initial.artifacts) + Filenames(current.artifacts)),
                (name: string) => NameChanged(before, after, name)), StringLeq)
  }

  function ArtifactChanges(names: seq<string>): seq<Blocker> {
    if names == [] then [] else [FinalArtifactChanged(names[0])] + ArtifactChanges(names[1..])
  }

  /** `revalidate_candidate_inventory` after the second evaluation. */
  function Handoff(initial: Report, current: Report): Report {
    if current.blockers != [] then current.(blockers := [FinalRevalidationFailed] + current.blockers)
    else
      var changed := ChangedNames(initial, current);
      var directoryChanged := IdentityChanged(initial.sourceIdentity, current.sourceIdentity);
      if changed == [] && !directoryChanged then current
      else current.(blockers := [FinalHandoffDiffers] + (if directoryChanged then [FinalDirectoryChanged] else [])
                                + ArtifactChanges(changed))
  }

  /** `revalidate_candidate_inventory` */
  method RevalidateCandidateInventory(host: Host, initial: Report, limits: Limits, parser: FilenameParser,
                                      hash: HashFunction, noFollow: bool)
    returns (final: Report, ghost current: Report)
    requires host.Valid()
    modifies host`now, host`faults, host`descriptors, host`fstats, host`nextFd
    ensures host.Valid() && host.Later() && host.descriptors == old(host.descriptors)
    ensures current.expectedVersion == initial.expectedVersion && final == Handoff(initial, current)
    ensures Evaluated(host.history, old(host.now), host.now, current, limits, parser, hash)
    ensures Quiet(host.history, old(host.now), host.now) && host.faults == old(host.faults) ==>
              current == ReportOf(ScanOf(host.history(host.now), limits, parser, hash, noFollow),
                                  initial.expectedVersion)
  {
    hide ScanOf, ReportOf, Handoff, Evaluated;
    var evaluated := EvaluateCandidateInventory(host, initial.expectedVersion, limits, parser, hash, noFollow);
    current := evaluated;
    final := Handoff(initial, evaluated);
  }

  lemma {:induction false} ByNameFinds(artifacts: seq<Artifact>, name: string)
    ensures name in ByName(artifacts) <==> name in Filenames(artifacts)
    ensures name in ByName(artifacts) ==>
              exists k | 0 <= k < |artifacts| ::
                artifacts[k].filename == name && ByName(artifacts)[name] == artifacts[k]
  {
    if artifacts != [] {
      var n := |artifacts| - 1;
      ByNameFinds(artifacts[..n], name);
      assert Filenames(artifacts) == Filenames(artifacts[..n]) + [artifacts[n].filename];
      hide Filenames;
    }
  }

  lemma {:induction false} DedupMembers(s: seq<string>, x: string)
    ensures x in Dedup(s) <==> x in s
  {
    if s != [] {
      DedupMembers(s[..|s| - 1], x);
      assert s == s[..|s| - 1] + [s[|s| - 1]];
    }
  }

  lemma NothingChanged(initial: Report, current: Report, name: string)
    requires ChangedNames(initial, current) == []
    requires name in Filenames(initial.artifacts) || name in Filenames(current.artifacts)
    ensures !NameChanged(ByName(initial.artifacts), ByName(current.artifacts), name)
  {
    hide NameChanged;
    var before, after := ByName(initial.artifacts), ByName(current.artifacts);
    var names := Filenames(initial.artifacts) + Filenames(current.artifacts);
    var p := (name: string) => NameChanged(before, after, name);
    SortPermutes(Filter(Dedup(names), p), StringLeq);
    DedupMembers(names, name);
    FilterMember(Dedup(names), p, name);
  }

  // The stable window.

  ghost predicate InOrder(artifacts: seq<Artifact>) {
    NoDuplicates(Filenames(artifacts)) && Sorted(Filenames(artifacts), StringLeq)
  }

  lemma HeldInOrder(s: State, dir: NodeId, scan: Scan, hash: HashFunction)
    requires HeldAt(s, dir, scan, hash)
    ensures InOrder(scan.artifacts)
    ensures Filenames(scan.artifacts) == SortedNames(EntriesOf(s, dir).Keys)
    ensures forall k | 0 <= k < |scan.artifacts| :: scan.artifacts[k].sourceIdentity != []
    ensures scan.sourceIdentity != []
  {
    SortedNamesFacts(EntriesOf(s, dir).Keys);
    forall k | 0 <= k < |scan.artifacts| ensures scan.artifacts[k].sourceIdentity != [] {
      assert HoldsArtifact(s, dir, scan.artifacts[k], hash);
    }
  }

  lemma DistinctFound(artifacts: seq<Artifact>, k: nat)
    requires k < |artifacts| && NoDuplicates(Filenames(artifacts))
    ensures artifacts[k].filename in ByName(artifacts) && ByName(artifacts)[artifacts[k].filename] == artifacts[k]
  {
    hide ByName, Filenames, NoDuplicates;
    var name := artifacts[k].filename;
    assert Filenames(artifacts)[k] in Filenames(artifacts);
    ByNameFinds(artifacts, name);
    var j :| 0 <= j < |artifacts| && artifacts[j].filename == name && ByName(artifacts)[name] == artifacts[j];
    DistinctIndex(Filenames(artifacts), j, k);
  }

  /** An accepted handoff carries the same names. */
  lemma SameNames(initial: Report, current: Report)
    requires InOrder(initial.artifacts) && InOrder(current.artifacts)
    requires ChangedNames(initial, current) == []
    ensures Filenames(initial.artifacts) == Filenames(current.artifacts)
  {
    var before, after := Filenames(initial.artifacts), Filenames(current.artifacts);
    forall name ensures name in before <==> name in after {
      ByNameFinds(initial.artifacts, name);
      ByNameFinds(current.artifacts, name);
      if name in before || name in after {
        NothingChanged(initial, current, name);
      }
    }
    SameElementsSamePermutation(before, after);
    StringOrder();
    SortedUnique(before, after, StringLeq);
  }

  /** ... and the same artifacts behind them, metadata included. */
  lemma SameArtifacts(initial: Report, current: Report, parser: FilenameParser)
    requires InOrder(initial.artifacts) && InOrder(current.artifacts)
    requires InventorySnapshot.Parsed(parser, initial.artifacts) && InventorySnapshot.Parsed(parser, current.artifacts)
    requires forall k | 0 <= k < |initial.artifacts| :: initial.artifacts[k].sourceIdentity != []
    requires forall k | 0 <= k < |current.artifacts| :: current.artifacts[k].sourceIdentity != []
    requires ChangedNames(initial, current) == []
    ensures initial.artifacts == current.artifacts
  {
    SameNames(initial, current);
    forall k | 0 <= k < |initial.artifacts| ensures initial.artifacts[k] == current.artifacts[k] {
      var a, b := initial.artifacts[k], current.artifacts[k];
      assert Filenames(initial.artifacts)[k] == Filenames(current.artifacts)[k];
      DistinctFound(initial.artifacts, k);
      DistinctFound(current.artifacts, k);
      assert Filenames(initial.artifacts)[k] in Filenames(initial.artifacts);
      NothingChanged(initial, current, a.filename);
      assert !ArtifactHandoffChanged(a, b);
    }
  }

  /** An artifact with the same metadata at both ends is held at every instant in between. */
  lemma ArtifactHeldThroughout(h: History, t1: Instant, t2: Instant, t: Instant, dir: NodeId, a: Artifact,
                               hash: HashFunction)
    requires Environment(h) && t1 <= t <= t2 && Frozen(h, t1, t2, dir)
    requires HoldsArtifact(h(t1), dir, a, hash) && HoldsArtifact(h(t2), dir, a, hash)
    ensures HoldsArtifact(h(t), dir, a, hash)
  {
    var n, m := Resolve(h(t1), dir, a.filename), Resolve(h(t2), dir, a.filename);
    IdentityIsExact(h(t1).nodes[n].stat, h(t2).nodes[m].stat);
    SameMetadataMeansFrozen(h, t1, t2, n, m);
    assert h(t).nodes[dir] == h(t1).nodes[dir];
  }

  lemma HeldThroughout(h: History, t1: Instant, t2: Instant, t: Instant, d1: NodeId, d2: NodeId, s1: Scan, s2: Scan,
                       hash: HashFunction)
    requires Environment(h) && t1 <= t <= t2
    requires HeldAt(h(t1), d1, s1, hash) && HeldAt(h(t2), d2, s2, hash)
    requires s1.artifacts == s2.artifacts && s1.sourceIdentity == s2.sourceIdentity
    ensures d1 == d2 && HeldAt(h(t), d1, s1, hash)
  {
    IdentityIsExact(h(t1).nodes[d1].stat, h(t2).nodes[d2].stat);
    SameMetadataMeansFrozen(h, t1, t2, d1, d2);
    hide Environment;
    assert h(t).nodes[d1] == h(t1).nodes[d1];
    forall k | 0 <= k < |s1.artifacts| ensures HoldsArtifact(h(t), d1, s1.artifacts[k], hash) {
      assert HoldsArtifact(h(t1), d1, s1.artifacts[k], hash) && HoldsArtifact(h(t2), d2, s2.artifacts[k], hash);
      ArtifactHeldThroughout(h, t1, t2, t, d1, s1.artifacts[k], hash);
    }
  }

  /** The directory satisfied the scan at every instant from t1 to t2. */
  ghost predicate TrueThroughout(h: History, t1: Instant, t2: Instant, dir: NodeId, scan: Scan, hash: HashFunction) {
    forall t: Instant | t1 <= t <= t2 :: HeldAt(h(t), dir, scan, hash)
  }

  lemma CleanInitial(h: History, lo: Instant, hi: Instant, initial: Report, current: Report, scan: Scan, limits: Limits,
                     parser: FilenameParser, hash: HashFunction)
    requires ScanFacts(h, lo, hi, scan, limits, parser, hash) && initial == ReportOf(scan, initial.expectedVersion)
    requires current.artifacts != [] && ChangedNames(initial, current) == []
    ensures scan.blockers == []
  {
    var name := current.artifacts[0].filename;
    assert Filenames(current.artifacts)[0] in Filenames(current.artifacts);
    NothingChanged(initial, current, name);
    ByNameFinds(initial.artifacts, name);
  }

  /** If revalidation reports no blocker, then the initial report had none either (although the
      code never looks at them), both reports list the same artifacts, and from the snapshot
      instant of the first scan to that of the second the directory was all the time exactly as
      reported. No collision resistance of the hash is needed. */
  lemma StableWindow(h: History, lo1: Instant, hi1: Instant, lo2: Instant, hi2: Instant, initial: Report,
                     current: Report, limits1: Limits, limits2: Limits, parser: FilenameParser, hash: HashFunction)
    returns (t1: Instant, t2: Instant, dir: NodeId, scan: Scan)
    requires Environment(h) && lo1 <= hi1 <= lo2 <= hi2
    requires Evaluated(h, lo1, hi1, initial, limits1, parser, hash)
    requires Evaluated(h, lo2, hi2, current, limits2, parser, hash)
    requires current.expectedVersion == initial.expectedVersion
    requires Handoff(initial, current).blockers == []
    ensures initial.blockers == [] && initial == current == Handoff(initial, current)
    ensures initial == ReportOf(scan, initial.expectedVersion)
    ensures lo1 <= t1 <= hi1 && lo2 <= t2 <= hi2
    ensures TrueThroughout(h, t1, t2, dir, scan, hash)
    ensures InventoryClosedSet.ClosedSet(initial.artifacts, initial.expectedVersion)
  {
    hide Environment, HeldAt, InventoryClosedSet.ClosedSet, InventoryValidation.Blockers, NamedDuring, ChangedNames;
    hide InOrder, InventorySnapshot.Parsed, InventoryGrouping.Grouped, Dedup;
    var last := PassingReport(h, lo2, hi2, current, limits2, parser, hash);
    var d2;
    t2, d2 :| lo2 <= t2 <= hi2 && HeldAt(h(t2), d2, last, hash) && NamedDuring(h, t2, hi2, d2);
    HeldInOrder(h(t2), d2, last, hash);
    InventoryClosedSet.ClosedSetCounts(current.artifacts, current.expectedVersion);
    scan :| ScanFacts(h, lo1, hi1, scan, limits1, parser, hash) && initial == ReportOf(scan, initial.expectedVersion);
    CleanInitial(h, lo1, hi1, initial, current, scan, limits1, parser, hash);
    t1, dir :| lo1 <= t1 <= hi1 && HeldAt(h(t1), dir, scan, hash) && NamedDuring(h, t1, hi1, dir);
    HeldInOrder(h(t1), dir, scan, hash);
    SameArtifacts(initial, current, parser);
    forall t: Instant | t1 <= t <= t2 ensures HeldAt(h(t), dir, scan, hash) {
      HeldThroughout(h, t1, t2, t, dir, d2, scan, last, hash);
    }
    assert initial.blockers == current.blockers;
  }

  lemma SelfUnchanged(report: Report)
    ensures ChangedNames(report, report) == []
  {
    hide Dedup;
    var byName, names := ByName(report.artifacts), Filenames(report.artifacts);
    var changed := (name: string) => NameChanged(byName, byName, name);
    forall i | 0 <= i < |Dedup(names + names)| ensures !changed(Dedup(names + names)[i]) {
      var name := Dedup(names + names)[i];
      DedupMembers(names + names, name);
      ByNameFinds(report.artifacts, name);
    }
    FilterNone(Dedup(names + names), changed);
  }

  /** Revalidation accepts exactly when the second evaluation passes and gives the very report of
      the first. */
  lemma HandoffExactly(h: History, lo1: Instant, hi1: Instant, lo2: Instant, hi2: Instant, initial: Report,
                       current: Report, limits1: Limits, limits2: Limits, parser: FilenameParser, hash: HashFunction)
    requires Environment(h) && lo1 <= hi1 <= lo2 <= hi2
    requires Evaluated(h, lo1, hi1, initial, limits1, parser, hash)
    requires Evaluated(h, lo2, hi2, current, limits2, parser, hash)
    requires current.expectedVersion == initial.expectedVersion
    ensures Handoff(initial, current).blockers == [] <==> current.blockers == [] && initial == current
  {
    hide Environment, Evaluated, TrueThroughout, InventoryClosedSet.ClosedSet, ReportOf, ChangedNames;
    if Handoff(initial, current).blockers == [] {
      var _, _, _, _ := StableWindow(h, lo1, hi1, lo2, hi2, initial, current, limits1, limits2, parser, hash);
    }
    SelfUnchanged(current);
  }
}
