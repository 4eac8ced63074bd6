/** What stops a scan of a directory that holds still, and what a handoff reports, blocker by blocker. */
module InventoryOutcomes {
  import opened Ordering
  import opened Digests
  import opened FileSystem
  import opened SystemCalls
  import opened InventoryContract
  import opened InventoryNames
  import opened InventoryHash
  import opened InventoryScan
  import opened InventoryRevalidation
  import InventoryAcceptance
  import InventoryValidation

  // The directory itself.

  /** The first thing wrong with what the path names, by what it is. */
  lemma RootExactly(h: History, t: Instant, noFollow: bool)
    requires Environment(h)
    ensures var s := h(t);
            RootBlockers(s, noFollow)
            == if s.candidate == None then [DirectoryUnavailable]
               else match s.nodes[s.candidate.value].content
                    case Symlink => [RootSymlink]
                    case FileBytes(_) => [RootUnsafe]
                    case Special => [RootUnsafe]
                    case DirEntries(_) => if noFollow then [] else [NoFollowUnavailable]
  {
    assert WellFormed(h(t));
    if h(t).candidate.Some? {
      assert WellFormedNode(h(t).nodes[h(t).candidate.value]);
    }
  }

  // The entries.

  ghost predicate IsFile(s: State, dir: NodeId, name: string) {
    Resolves(s, dir, name) && s.nodes[Resolve(s, dir, name)].content.FileBytes?
  }

  /** Exactly the blockers that the inspection of the names gives. */
  ghost predicate Stops(b: Blocker, s: State, dir: NodeId, names: seq<string>, limits: Limits, parser: FilenameParser) {
    match b
    case EntryUnavailable(name) => name in names && !Resolves(s, dir, name)
    case EntryUnsafe(name) => name in names && Resolves(s, dir, name) && !IsFile(s, dir, name)
    case ArtifactUnrecognized(name) => name in names && IsFile(s, dir, name) && parser.Parse(name) == None
    case FileSizeLimitExceeded(name, maximum, actual) =>
      && name in names && IsFile(s, dir, name) && parser.Parse(name).Some?
      && actual == |BytesOf(s, Resolve(s, dir, name))| > maximum == limits.maxFileBytes
    case TotalSizeLimitExceeded(maximum, actual) =>
      actual == RecognisedBytes(s, dir, names, parser) > maximum == limits.maxTotalBytes
    case _ => false
  }

  /** The bytes of the regular files with a distribution's name. */
  ghost function RecognisedBytes(s: State, dir: NodeId, names: seq<string>, parser: FilenameParser): nat {
    if names == [] then 0
    else
      var name := names[|names| - 1];
      RecognisedBytes(s, dir, names[..|names| - 1], parser)
      + if IsFile(s, dir, name) && parser.Parse(name).Some? then |BytesOf(s, Resolve(s, dir, name))| else 0
  }

  lemma FileStat(h: History, t: Instant, dir: NodeId, name: string)
    requires Environment(h)
    ensures var found := LookupStat(h(t), dir, name);
            && (found.None? <==> !Resolves(h(t), dir, name))
            && (found.Some? ==> (IsRegular(found.value.mode) <==> IsFile(h(t), dir, name)))
            && (IsFile(h(t), dir, name) ==> found.value.size == |BytesOf(h(t), Resolve(h(t), dir, name))|)
  {
    assert WellFormed(h(t));
    if Resolves(h(t), dir, name) {
      assert WellFormedNode(h(t).nodes[Resolve(h(t), dir, name)]);
    }
  }

  lemma {:induction false} InspectionMembers(h: History, t: Instant, dir: NodeId, names: seq<string>, limits: Limits,
                                             parser: FilenameParser, b: Blocker)
    requires Environment(h)
    ensures var i := InspectNames(h(t), dir, names, limits, parser);
            && i.total == RecognisedBytes(h(t), dir, names, parser)
            && (b in i.blockers <==> !b.TotalSizeLimitExceeded? && Stops(b, h(t), dir, names, limits, parser))
  {
    hide Environment;
    if names != [] {
      var init, name := names[..|names| - 1], names[|names| - 1];
      InspectionMembers(h, t, dir, init, limits, parser, b);
      FileStat(h, t, dir, name);
      FrontAndLast(names);
      hide IsFile, Resolves, Resolve, LookupStat, BytesOf, IsRegular;
      assert forall n :: n in names <==> n in init || n == name;
    }
  }

  /** The inspection of a directory that holds still. */
  lemma InspectionExactly(h: History, t: Instant, dir: NodeId, names: seq<string>, limits: Limits,
                          parser: FilenameParser, b: Blocker)
    requires Environment(h)
    ensures b in WithTotal(InspectNames(h(t), dir, names, limits, parser), limits)
            <==> Stops(b, h(t), dir, names, limits, parser)
  {
    InspectionMembers(h, t, dir, names, limits, parser, b);
    hide Environment, InspectNames, RecognisedBytes, IsFile, Resolves, Resolve, BytesOf;
  }

  /** The blockers of the scan of a directory that holds still: those of the root; or the limit, for
      too many entries; or those of the entries. */
  lemma ScanExactly(h: History, t: Instant, limits: Limits, parser: FilenameParser, hash: HashFunction, noFollow: bool,
                    b: Blocker)
    requires Environment(h)
    ensures var s, scan := h(t), ScanOf(h(t), limits, parser, hash, noFollow);
            if !NamesDirectory(s) || !noFollow then scan == BlockedScan(0, RootBlockers(s, noFollow))
            else
              var entries := EntriesOf(s, s.candidate.value);
              if |entries| > limits.maxEntries then
                scan == BlockedScan(limits.maxEntries + 1,
                                    [EntryLimitExceeded(limits.maxEntries, limits.maxEntries + 1)])
              else
                && scan.entryCount == |entries|
                && (b in scan.blockers
                    <==> Stops(b, s, s.candidate.value, SortedNames(entries.Keys), limits, parser))
  {
    hide Environment, RootBlockers, InspectNames, Stops, SortedNames, WithTotal, ArtifactsIn, EntriesOf;
    var s := h(t);
    InventoryAcceptance.RootPasses(h, t, noFollow);
    if NamesDirectory(s) && noFollow {
      var dir := s.candidate.value;
      SameSize(EntriesOf(s, dir));
      DirectoryScan(h, t, dir, limits, parser, hash, b);
      hide ScanOfDirectory;
    }
  }

  lemma DirectoryScan(h: History, t: Instant, dir: NodeId, limits: Limits, parser: FilenameParser, hash: HashFunction,
                      b: Blocker)
    requires Environment(h) && dir in h(t).nodes
    ensures var keys, scan := EntriesOf(h(t), dir).Keys, ScanOfDirectory(h(t), dir, limits, parser, hash);
            if |keys| > limits.maxEntries then
              scan == BlockedScan(limits.maxEntries + 1,
                                  [EntryLimitExceeded(limits.maxEntries, limits.maxEntries + 1)])
            else
              && scan.entryCount == |keys|
              && (b in scan.blockers <==> Stops(b, h(t), dir, SortedNames(keys), limits, parser))
  {
    hide Environment, InspectNames, Stops, SortedNames, WithTotal, ArtifactsIn, EntriesOf;
    InspectionExactly(h, t, dir, SortedNames(EntriesOf(h(t), dir).Keys), limits, parser, b);
  }

  lemma SameSize(entries: map<string, NodeId>)
    ensures |entries.Keys| == |entries|
  {
  }

  lemma {:induction false} EntryChangesExactly(s: State, dir: NodeId, entries: seq<CandidateEntry>, b: Blocker)
    ensures b in EntryChanges(s, dir, entries)
            <==> && b.EntryChanged?
                 && exists e | e in entries :: e.name == b.name && LookupStat(s, dir, e.name) != Some(e.metadata)
  {
    hide LookupStat;
    if entries != [] {
      var init, last := entries[..|entries| - 1], entries[|entries| - 1];
      EntryChangesExactly(s, dir, init, b);
      FrontAndLast(entries);
      assert forall e :: e in entries <==> e in init || e == last;
    }
  }

  /** What the second collection reports of a directory that holds still: other or too many names, other
      metadata under the path, other metadata of an entry. */
  lemma SnapshotExactly(s: State, dir: NodeId, metadata: Stat, names: seq<string>, entries: seq<CandidateEntry>,
                        limits: Limits, b: Blocker)
    ensures b in SnapshotChanges(s, dir, metadata, names, entries, limits)
            <==> || (b.RootEntriesChanged?
                     && (|EntriesOf(s, dir)| > limits.maxEntries || names != SortedNames(EntriesOf(s, dir).Keys)))
                 || (b.RootIdentityChanged? && PathStat(s) != Some(metadata))
                 || (b.EntryChanged?
                     && exists e | e in entries :: e.name == b.name && LookupStat(s, dir, e.name) != Some(e.metadata))
  {
    EntryChangesExactly(s, dir, entries, b);
    SameSize(EntriesOf(s, dir));
    hide EntryChanges, SortedNames, EntriesOf, LookupStat;
  }

  // The report.

  /** The report's blockers: those of the scan, the number of entries if it is not ten, and those of
      the validation, each once. */
  lemma ReportExactly(scan: Scan, version: string)
    ensures var report := ReportOf(scan, version);
            && NoDuplicates(report.blockers)
            && (forall b :: b in report.blockers
                            <==> || b in scan.blockers
                                 || (scan.entryCount != 10 && b == EntryCountMismatch(10, scan.entryCount))
                                 || b in InventoryValidation.Blockers(scan.releases, version))
            && report.artifacts == scan.artifacts && report.releases == scan.releases
            && report.entryCount == scan.entryCount && report.sourceIdentity == scan.sourceIdentity
            && report.expectedVersion == version
  {
    hide InventoryValidation.Blockers, Dedup;
    var count := if scan.entryCount != 10 then [EntryCountMismatch(10, scan.entryCount)] else [];
    DedupExactly(scan.blockers + count + InventoryValidation.Blockers(scan.releases, version));
  }

  // The handoff.

  /** The last artifact of that name. */
  ghost predicate Shows(artifacts: seq<Artifact>, name: string, a: Artifact) {
    exists k | 0 <= k < |artifacts| ::
      && artifacts[k] == a && a.filename == name
      && forall j | k < j < |artifacts| :: artifacts[j].filename != name
  }

  lemma ShowsLast(artifacts: seq<Artifact>, name: string, a: Artifact)
    requires artifacts != []
    ensures var init, last := artifacts[..|artifacts| - 1], artifacts[|artifacts| - 1];
            Shows(artifacts, name, a) <==> if last.filename == name then a == last else Shows(init, name, a)
  {
    var n := |artifacts| - 1;
    var init, last := artifacts[..n], artifacts[n];
    if Shows(artifacts, name, a) {
      var k :| 0 <= k < |artifacts| && artifacts[k] == a && a.filename == name
               && forall j | k < j < |artifacts| :: artifacts[j].filename != name;
      if k < n {
        assert init[k] == a && forall j | k < j < |init| :: init[j].filename != name;
      }
    }
    if last.filename == name && a == last {
      assert artifacts[n] == a;
    }
    if last.filename != name && Shows(init, name, a) {
      var k :| 0 <= k < |init| && init[k] == a && a.filename == name
               && forall j | k < j < |init| :: init[j].filename != name;
      assert artifacts[k] == a;
    }
  }

  lemma {:induction false} ByNameShows(artifacts: seq<Artifact>, name: string, a: Artifact)
    ensures name in ByName(artifacts) && ByName(artifacts)[name] == a <==> Shows(artifacts, name, a)
  {
    if artifacts != [] {
      ByNameShows(artifacts[..|artifacts| - 1], name, a);
      ShowsLast(artifacts, name, a);
      hide Shows;
    }
  }

  /** The name is in one report only, or its artifacts differ in size or digest or in the metadata that
      both reports know. */
  ghost predicate Differs(initial: Report, current: Report, name: string) {
    || ((exists a :: Shows(initial.artifacts, name, a)) != exists a :: Shows(current.artifacts, name, a))
    || exists a, b | Shows(initial.artifacts, name, a) && Shows(current.artifacts, name, b) ::
         || a.sizeBytes != b.sizeBytes || a.sha256 != b.sha256
         || (a.sourceIdentity != [] && b.sourceIdentity != [] && a.sourceIdentity != b.sourceIdentity)
  }

  lemma DiffersExactly(initial: Report, current: Report, name: string)
    ensures Differs(initial, current, name)
            <==> && (name in Filenames(initial.artifacts) || name in Filenames(current.artifacts))
                 && NameChanged(ByName(initial.artifacts), ByName(current.artifacts), name)
  {
    var before, after := ByName(initial.artifacts), ByName(current.artifacts);
    ByNameFinds(initial.artifacts, name);
    ByNameFinds(current.artifacts, name);
    forall a ensures Shows(initial.artifacts, name, a) <==> name in before && before[name] == a {
      ByNameShows(initial.artifacts, name, a);
    }
    forall a ensures Shows(current.artifacts, name, a) <==> name in after && after[name] == a {
      ByNameShows(current.artifacts, name, a);
    }
    if name in before {
      assert Shows(initial.artifacts, name, before[name]);
    }
    if name in after {
      assert Shows(current.artifacts, name, after[name]);
    }
    hide Shows, ByName, Filenames;
  }

  /** The changed names: exactly those that differ, each once, in order. */
  lemma ChangedExactly(initial: Report, current: Report)
    ensures var changed := ChangedNames(initial, current);
            && Sorted(changed, StringLeq) && NoDuplicates(changed)
            && forall name :: name in changed <==> Differs(initial, current, name)
  {
    var before, after := ByName(initial.artifacts), ByName(current.artifacts);
    var names := Filenames(initial.artifacts) + Filenames(current.artifacts);
    var p := (name: string) => NameChanged(before, after, name);
    var filtered := Filter(Dedup(names), p);
    hide ByName, Filenames, Dedup, NameChanged, StringLeq, Filter, Differs;
    DedupExactly(names);
    FilterDistinct(Dedup(names), p);
    StringOrder();
    SortSorts(filtered, StringLeq);
    SortPermutes(filtered, StringLeq);
    SortKeepsDistinct(filtered, StringLeq);
    PermutationBasics(Sort(filtered, StringLeq), filtered);
    hide Sort, TotalOrder;
    forall name ensures name in filtered <==> Differs(initial, current, name) {
      FilterMember(Dedup(names), p, name);
      DiffersExactly(initial, current, name);
    }
  }

  lemma {:induction false} ArtifactChangesAre(names: seq<string>)
    ensures |ArtifactChanges(names)| == |names|
    ensures forall k | 0 <= k < |names| :: ArtifactChanges(names)[k] == FinalArtifactChanged(names[k])
  {
    if names != [] {
      ArtifactChangesAre(names[1..]);
    }
  }

  /** The final report is that of the second evaluation, with these blockers instead: the failure and
      all blockers of the second evaluation, if it has any; otherwise one for a handoff that differs,
      one for a directory whose metadata differ, and one for each name that differs. */
  lemma HandoffBlockers(initial: Report, current: Report, b: Blocker)
    ensures var final := Handoff(initial, current);
            var directory := && initial.sourceIdentity != [] && current.sourceIdentity != []
                             && initial.sourceIdentity != current.sourceIdentity;
            && final == current.(blockers := final.blockers)
            && (current.blockers != [] ==> final.blockers == [FinalRevalidationFailed] + current.blockers)
            && (current.blockers == [] ==>
                  (b in final.blockers
                   <==> || (b.FinalArtifactChanged? && Differs(initial, current, b.name))
                        || (b.FinalDirectoryChanged? && directory)
                        || (b.FinalHandoffDiffers?
                            && (directory || exists name :: Differs(initial, current, name)))))
  {
    var changed := ChangedNames(initial, current);
    ChangedExactly(initial, current);
    ArtifactChangesAre(changed);
    hide ChangedNames, Differs, ArtifactChanges, StringLeq;
    if changed != [] {
      assert changed[0] in changed;
    }
  }
}
