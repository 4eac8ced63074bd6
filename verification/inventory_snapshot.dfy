/** The scan as a whole, and why a scan without blockers is an atomic snapshot. */
module InventorySnapshot {
  import opened Digests
  import opened Ordering
  import opened FileSystem
  import opened SystemCalls
  import opened InventoryContract
  import opened InventoryNames
  import opened InventoryHash
  import opened InventoryScan
  import InventoryGrouping

  // What a clean scan means.

  /** In state s the directory has a regular file of this name, and the artifact reports its
      metadata, its size and the digest of its bytes. */
  ghost predicate HoldsArtifact(s: State, dir: NodeId, a: Artifact, hash: HashFunction) {
    && Resolves(s, dir, a.filename)
    && var file := s.nodes[Resolve(s, dir, a.filename)];
       && file.content.FileBytes?
       && |file.content.bytes| == a.sizeBytes
       && hash(file.content.bytes) == a.sha256
       && MetadataIdentity(file.stat) == a.sourceIdentity
  }

  ghost predicate HoldsAll(s: State, dir: NodeId, artifacts: seq<Artifact>, hash: HashFunction) {
    forall k | 0 <= k < |artifacts| :: HoldsArtifact(s, dir, artifacts[k], hash)
  }

  /** The artifacts are the directory's names, all of them, in sorted order. */
  ghost predicate NamesMatch(s: State, dir: NodeId, artifacts: seq<Artifact>) {
    var names := SortedNames(EntriesOf(s, dir).Keys);
    |artifacts| == |names| && forall k | 0 <= k < |names| :: artifacts[k].filename == names[k]
  }

  /** The artifact carries what its own filename says. */
  ghost predicate ParsedArtifact(parser: FilenameParser, a: Artifact) {
    && parser.Parse(a.filename) == Some(InventoryContract.Parsed(a.package, a.version))
    && a.artifactType == ArtifactType(a.filename)
  }

  ghost predicate Parsed(parser: FilenameParser, artifacts: seq<Artifact>) {
    forall k | 0 <= k < |artifacts| :: ParsedArtifact(parser, artifacts[k])
  }

  /** The scan describes exactly the state s of the directory. */
  ghost predicate HeldAt(s: State, dir: NodeId, scan: Scan, hash: HashFunction) {
    && dir in s.nodes && s.nodes[dir].content.DirEntries?
    && MetadataIdentity(s.nodes[dir].stat) == scan.sourceIdentity
    && NamesMatch(s, dir, scan.artifacts)
    && HoldsAll(s, dir, scan.artifacts, hash)
  }

  /** One single instant from lo to hi at which the scan was true of the whole directory,
      which was the one the tool's path named both before and after that instant. */
  ghost predicate AtomicSnapshot(h: History, lo: Instant, hi: Instant, scan: Scan, hash: HashFunction) {
    exists t: Instant, dir | lo <= t <= hi :: HeldAt(h(t), dir, scan, hash)
      && NamedDuring(h, lo, t, dir) && NamedDuring(h, t, hi, dir)
  }

  /** The parts of a clean scan that do not depend on the file system. */
  ghost predicate CleanScan(scan: Scan, parser: FilenameParser, limits: Limits) {
    && scan.blockers == []
    && scan.releases == InventoryGrouping.Grouped(scan.artifacts)
    && scan.entryCount == |scan.artifacts| <= limits.maxEntries
    && Parsed(parser, scan.artifacts)
  }

  // The double collect.

  /** The directory is pinned from its first fstat to the final stat of the path. */
  lemma RootPinned(h: History, since: Instant, star: Instant, end: Instant, dir: NodeId, metadata: Stat)
    requires Environment(h) && since <= star <= end
    requires dir in h(since).nodes && h(since).nodes[dir].stat == metadata
    requires PathShowed(h, star, end, metadata)
    ensures Frozen(h, since, star, dir)
    ensures NamedDuring(h, star, end, dir)
  {
    var t: Instant :| star <= t <= end && PathStat(h(t)) == Some(metadata);
    var m := h(t).candidate.value;
    SameMetadataMeansFrozen(h, since, t, dir, m);
  }

  /** An entry seen before and after the instant, and hashed in between, is held at the instant. */
  lemma EntryPinned(h: History, since: Instant, star: Instant, end: Instant, dir: NodeId, e: CandidateEntry,
                    digest: string, hash: HashFunction)
    requires Environment(h) && since <= star <= end
    requires Frozen(h, since, star, dir)
    requires Observed(h, since, star, dir, e) && Observed(h, star, end, dir, e)
    requires HashedAs(h, since, star, e.metadata, digest, hash)
    ensures HoldsArtifact(h(star), dir, ArtifactOf(e, digest), hash)
  {
    var t1: Instant :| since <= t1 <= star && LookupStat(h(t1), dir, e.name) == Some(e.metadata);
    var t2: Instant :| star <= t2 <= end && LookupStat(h(t2), dir, e.name) == Some(e.metadata);
    var n, m := Resolve(h(t1), dir, e.name), Resolve(h(t2), dir, e.name);
    SameMetadataMeansFrozen(h, t1, t2, n, m);
    assert h(star).nodes[n] == h(t1).nodes[n];
    assert h(star).nodes[dir] == h(t1).nodes[dir];
    var t3: Instant, k :| since <= t3 <= star && k in h(t3).nodes && h(t3).nodes[k].stat == e.metadata
      && h(t3).nodes[k].content.FileBytes? && |h(t3).nodes[k].content.bytes| == e.metadata.size
      && digest == hash(h(t3).nodes[k].content.bytes);
    if t3 <= t1 {
      SameMetadataMeansFrozen(h, t3, t1, k, n);
    } else {
      SameMetadataMeansFrozen(h, t1, t3, n, k);
    }
  }

  // Sorting the artifacts changes nothing: they come in name order already.

  predicate ArtifactLeq(a: Artifact, b: Artifact) {
    if a.filename != b.filename then StringLeq(a.filename, b.filename)
    else if a.package != b.package then StringLeq(a.package, b.package)
    else if a.version != b.version then StringLeq(a.version, b.version)
    else if a.artifactType != b.artifactType then StringLeq(a.artifactType, b.artifactType)
    else if a.sha256 != b.sha256 then StringLeq(a.sha256, b.sha256)
    else a.sizeBytes <= b.sizeBytes
  }

  lemma InNameOrder(artifacts: seq<Artifact>, names: seq<string>)
    requires |artifacts| == |names| && forall k | 0 <= k < |names| :: artifacts[k].filename == names[k]
    requires NoDuplicates(names) && Sorted(names, StringLeq)
    ensures Sort(artifacts, ArtifactLeq) == artifacts
  {
    forall i, j | 0 <= i < j < |artifacts| ensures ArtifactLeq(artifacts[i], artifacts[j]) {
      assert names[i] != names[j] && StringLeq(names[i], names[j]);
    }
    SortFixed(artifacts, ArtifactLeq);
  }

  // The hashing loop.

  ghost predicate HashedEntries(h: History, lo: Instant, hi: Instant, entries: seq<CandidateEntry>,
                                artifacts: seq<Artifact>, hash: HashFunction) {
    && |artifacts| == |entries|
    && forall k | 0 <= k < |entries| ::
         && artifacts[k] == ArtifactOf(entries[k], artifacts[k].sha256)
         && HashedAs(h, lo, hi, entries[k].metadata, artifacts[k].sha256, hash)
  }

  lemma HashOneMore(h: History, lo: Instant, mid: Instant, hi: Instant, entries: seq<CandidateEntry>,
                    artifacts: seq<Artifact>, e: CandidateEntry, digest: string, hash: HashFunction)
    requires lo <= mid <= hi && HashedEntries(h, lo, mid, entries, artifacts, hash)
    requires HashedAs(h, mid, hi, e.metadata, digest, hash)
    ensures HashedEntries(h, lo, hi, entries + [e], artifacts + [ArtifactOf(e, digest)], hash)
  {
    var entries', artifacts' := entries + [e], artifacts + [ArtifactOf(e, digest)];
    forall k | 0 <= k < |entries'| ensures HashedAs(h, lo, hi, entries'[k].metadata, artifacts'[k].sha256, hash) {
      if k < |entries| {
        assert HashedAs(h, lo, mid, entries[k].metadata, artifacts[k].sha256, hash);
      }
    }
  }

  /** Every entry is still what the inspection saw. */
  ghost predicate AllMatch(s: State, dir: NodeId, entries: seq<CandidateEntry>) {
    forall k | 0 <= k < |entries| ::
      LookupStat(s, dir, entries[k].name) == Some(entries[k].metadata) && IsRegular(entries[k].metadata.mode)
  }

  /** The artifact loop of `_scan_candidate_directory`; a name when an entry could not be hashed. */
  method HashEntries(host: Host, root: Fd, entries: seq<CandidateEntry>, hash: HashFunction)
    returns (artifacts: seq<Artifact>, failed: Option<string>)
    requires host.Valid() && root in host.descriptors
    modifies host`now, host`faults, host`descriptors, host`fstats, host`nextFd
    ensures host.Valid() && host.Later() && host.descriptors == old(host.descriptors)
    ensures failed.None? ==> HashedEntries(host.history, old(host.now), host.now, entries, artifacts, hash)
    ensures Quiet(host.history, old(host.now), host.now) && host.faults == old(host.faults)
            && AllMatch(host.history(host.now), host.descriptors[root].node, entries) ==>
              failed.None?
              && artifacts == ArtifactsIn(host.history(host.now), host.descriptors[root].node, entries, hash)
  {
    hide Environment, HashedEntries, ArtifactOf, HashedAs, LookupStat, Observed, HashedNow, EntryStill;
    ghost var h, dir, start := host.history, host.descriptors[root].node, host.now;
    artifacts := [];
    assert HashedEntries(h, start, start, entries[..0], artifacts, hash) by { NothingHashed(h, start, hash); }
    for i := 0 to |entries|
      invariant host.Valid() && host.Later() && host.descriptors == old(host.descriptors)
      invariant HashedEntries(h, start, host.now, entries[..i], artifacts, hash)
      invariant Quiet(h, start, host.now) && host.faults == old(host.faults)
                && AllMatch(h(host.now), dir, entries) ==>
                  artifacts == ArtifactsIn(h(host.now), dir, entries[..i], hash)
    {
      ghost var mid := host.now;
      var digest := HashEntry(host, root, entries[i], hash);
      QuietPrefix(h, start, mid);
      QuietRest(h, start, mid, host.now);
      if digest.None? {
        return [], Some(entries[i].name);
      }
      HashedNowMeans(h, mid, host.now, dir, entries[i], digest.value, hash);
      HashOneMore(h, start, mid, host.now, entries[..i], artifacts, entries[i], digest.value, hash);
      assert entries[..i + 1] == entries[..i] + [entries[i]] && entries[..i + 1][..i] == entries[..i];
      artifacts := artifacts + [ArtifactOf(entries[i], digest.value)];
    }
    assert entries[..|entries|] == entries;
    failed := None;
  }

  lemma NothingHashed(h: History, t: Instant, hash: HashFunction)
    ensures HashedEntries(h, t, t, [], [], hash)
  {
  }

  lemma QuietParts(h: History, lo: Instant, mid: Instant, hi: Instant)
    requires lo <= mid <= hi
    ensures Quiet(h, lo, hi) ==> Quiet(h, lo, mid) && Quiet(h, mid, hi) && h(mid) == h(hi)
  {
  }

  lemma QuietRest(h: History, lo: Instant, mid: Instant, hi: Instant)
    requires lo <= mid <= hi
    ensures Quiet(h, lo, hi) ==> Quiet(h, mid, hi) && h(mid) == h(hi)
  {
  }

  // A directory that holds still.

  lemma {:induction false} InspectedMatch(s: State, dir: NodeId, names: seq<string>, limits: Limits,
                                          parser: FilenameParser)
    ensures AllMatch(s, dir, InspectNames(s, dir, names, limits, parser).entries)
  {
    if names != [] {
      InspectedMatch(s, dir, names[..|names| - 1], limits, parser);
    }
  }

  lemma {:induction false} NoEntryChanges(s: State, dir: NodeId, entries: seq<CandidateEntry>)
    requires AllMatch(s, dir, entries)
    ensures EntryChanges(s, dir, entries) == []
  {
    if entries != [] {
      NoEntryChanges(s, dir, entries[..|entries| - 1]);
    }
  }

  // The scan.

  /** What the second half of the scan knows about the first: names were listed, entries
      inspected and hashed, all between the directory's first fstat and the instant `star`. */
  ghost predicate Collected(h: History, since: Instant, star: Instant, dir: NodeId, names: seq<string>,
                            entries: seq<CandidateEntry>, artifacts: seq<Artifact>, parser: FilenameParser,
                            hash: HashFunction) {
    && since <= star
    && (Frozen(h, since, star, dir) ==> names == SortedNames(EntriesOf(h(star), dir).Keys))
    && |entries| == |names|
    && (forall k | 0 <= k < |entries| ::
          && entries[k].name == names[k]
          && Observed(h, since, star, dir, entries[k])
          && parser.Parse(entries[k].name) == Some(entries[k].parsed))
    && HashedEntries(h, since, star, entries, artifacts, hash)
  }

  /** The double-collect argument: the two collections agree only if one instant between them
      satisfies the whole report. */
  lemma DoubleCollect(h: History, since: Instant, star: Instant, end: Instant, dir: NodeId, metadata: Stat,
                      names: seq<string>, entries: seq<CandidateEntry>, artifacts: seq<Artifact>,
                      parser: FilenameParser, hash: HashFunction)
    requires Environment(h) && star <= end
    requires Collected(h, since, star, dir, names, entries, artifacts, parser, hash)
    requires dir in h(since).nodes && h(since).nodes[dir].content.DirEntries? && h(since).nodes[dir].stat == metadata
    requires PathShowed(h, star, end, metadata)
    requires forall k | 0 <= k < |entries| :: Observed(h, star, end, dir, entries[k])
    ensures Frozen(h, since, star, dir) && NamedDuring(h, star, end, dir)
    ensures NamesMatch(h(star), dir, artifacts) && HoldsAll(h(star), dir, artifacts, hash)
    ensures h(star).nodes[dir].content.DirEntries? && h(star).nodes[dir].stat == metadata
    ensures Parsed(parser, artifacts)
    ensures Sort(artifacts, ArtifactLeq) == artifacts
  {
    RootPinned(h, since, star, end, dir, metadata);
    CollectedSizes(h, since, star, dir, names, entries, artifacts, parser, hash);
    hide Environment, Observed, HashedAs, NamedDuring, PathShowed, SortedNames, Sort, Collected, HoldsArtifact;
    forall k | 0 <= k < |artifacts|
      ensures HoldsArtifact(h(star), dir, artifacts[k], hash) && artifacts[k].filename == names[k]
      ensures ParsedArtifact(parser, artifacts[k])
    {
      CollectedEntry(h, since, star, dir, names, entries, artifacts, parser, hash, k);
      EntryPinned(h, since, star, end, dir, entries[k], artifacts[k].sha256, hash);
    }
    CollectedNames(h, since, star, dir, names, entries, artifacts, parser, hash);
    SortedNamesFacts(EntriesOf(h(star), dir).Keys);
    InNameOrder(artifacts, names);
  }

  lemma CollectedNames(h: History, since: Instant, star: Instant, dir: NodeId, names: seq<string>,
                       entries: seq<CandidateEntry>, artifacts: seq<Artifact>, parser: FilenameParser,
                       hash: HashFunction)
    requires Collected(h, since, star, dir, names, entries, artifacts, parser, hash) && Frozen(h, since, star, dir)
    ensures names == SortedNames(EntriesOf(h(star), dir).Keys)
  {
  }

  /** What was collected of one entry. */
  lemma CollectedEntry(h: History, since: Instant, star: Instant, dir: NodeId, names: seq<string>,
                       entries: seq<CandidateEntry>, artifacts: seq<Artifact>, parser: FilenameParser,
                       hash: HashFunction, k: nat)
    requires Collected(h, since, star, dir, names, entries, artifacts, parser, hash) && k < |artifacts|
    ensures |entries| == |names| == |artifacts|
    ensures artifacts[k] == ArtifactOf(entries[k], artifacts[k].sha256) && artifacts[k].filename == names[k]
    ensures HashedAs(h, since, star, entries[k].metadata, artifacts[k].sha256, hash)
    ensures Observed(h, since, star, dir, entries[k])
    ensures ParsedArtifact(parser, artifacts[k])
  {
  }

  lemma Widened(h: History, since: Instant, lo: Instant, hi: Instant, star: Instant, dir: NodeId,
                entries: seq<CandidateEntry>)
    requires since <= lo <= hi <= star
    requires forall k | 0 <= k < |entries| :: Observed(h, lo, hi, dir, entries[k])
    ensures forall k | 0 <= k < |entries| :: Observed(h, since, star, dir, entries[k])
  {
    forall k | 0 <= k < |entries| ensures Observed(h, since, star, dir, entries[k]) {
      ObservedWider(h, since, lo, hi, star, dir, entries[k]);
    }
  }

  lemma HashedEarlier(h: History, since: Instant, lo: Instant, hi: Instant, entries: seq<CandidateEntry>,
                      artifacts: seq<Artifact>, hash: HashFunction)
    requires since <= lo <= hi && HashedEntries(h, lo, hi, entries, artifacts, hash)
    ensures HashedEntries(h, since, hi, entries, artifacts, hash)
  {
    forall k | 0 <= k < |entries| ensures HashedAs(h, since, hi, entries[k].metadata, artifacts[k].sha256, hash) {
      assert HashedAs(h, lo, hi, entries[k].metadata, artifacts[k].sha256, hash);
    }
  }

  /** What listing and inspecting a directory that holds still yields. */
  ghost predicate MetadataStill(s: State, dir: NodeId, limits: Limits, parser: FilenameParser, blocked: Option<Scan>,
                                names: seq<string>, entries: seq<CandidateEntry>) {
    var keys := EntriesOf(s, dir).Keys;
    var inspection := InspectNames(s, dir, SortedNames(keys), limits, parser);
    if |keys| > limits.maxEntries then
      blocked == Some(BlockedScan(limits.maxEntries + 1,
                                  [EntryLimitExceeded(limits.maxEntries, limits.maxEntries + 1)]))
    else if WithTotal(inspection, limits) != [] then
      blocked == Some(BlockedScan(|keys|, WithTotal(inspection, limits)))
    else
      blocked == None && names == SortedNames(keys) && entries == inspection.entries
  }

  /** What the first collection yields from a directory that holds still. */
  ghost predicate CollectedStill(s: State, dir: NodeId, limits: Limits, parser: FilenameParser, hash: HashFunction,
                                 blocked: Option<Scan>, names: seq<string>, entries: seq<CandidateEntry>,
                                 artifacts: seq<Artifact>) {
    && MetadataStill(s, dir, limits, parser, blocked, names, entries)
    && (blocked == None ==> artifacts == ArtifactsIn(s, dir, entries, hash))
  }

  lemma LimitStill(s: State, dir: NodeId, limits: Limits, parser: FilenameParser, blocked: Option<Scan>,
                   names: seq<string>, entries: seq<CandidateEntry>)
    requires blocked.Some?
    ensures |EntriesOf(s, dir).Keys| > limits.maxEntries
            && blocked.value == BlockedScan(limits.maxEntries + 1,
                                            [EntryLimitExceeded(limits.maxEntries, limits.maxEntries + 1)]) ==>
              MetadataStill(s, dir, limits, parser, blocked, names, entries)
  {
  }

  lemma InspectedStill(s: State, dir: NodeId, limits: Limits, parser: FilenameParser, names: seq<string>,
                       entries: seq<CandidateEntry>, blockers: seq<Blocker>)
    ensures var keys := EntriesOf(s, dir).Keys;
            var i := InspectNames(s, dir, names, limits, parser);
            |keys| <= limits.maxEntries && names == SortedNames(keys)
            && entries == i.entries && blockers == WithTotal(i, limits) ==>
              MetadataStill(s, dir, limits, parser,
                            if blockers != [] then Some(BlockedScan(|names|, blockers)) else None, names, entries)
  {
    SortedNamesFacts(EntriesOf(s, dir).Keys);
  }

  /** Names and metadata. */
  method CollectMetadata(host: Host, root: Fd, limits: Limits, parser: FilenameParser)
    returns (blocked: Option<Scan>, names: seq<string>, entries: seq<CandidateEntry>)
    requires host.Valid() && root in host.descriptors
    modifies host`now, host`faults
    ensures host.Valid() && host.Later()
    ensures blocked.Some? ==> blocked.value.blockers != []
                              && blocked.value == BlockedScan(blocked.value.entryCount, blocked.value.blockers)
    ensures blocked.None? ==>
              && |names| <= limits.maxEntries && |entries| == |names|
              && (Frozen(host.history, old(host.now), host.now, host.descriptors[root].node) ==>
                    names == SortedNames(EntriesOf(host.history(host.now), host.descriptors[root].node).Keys))
              && forall k | 0 <= k < |entries| ::
                   && entries[k].name == names[k]
                   && Observed(host.history, old(host.now), host.now, host.descriptors[root].node, entries[k])
                   && parser.Parse(entries[k].name) == Some(entries[k].parsed)
    ensures Quiet(host.history, old(host.now), host.now) && host.faults == old(host.faults) ==>
              MetadataStill(host.history(host.now), host.descriptors[root].node, limits, parser, blocked, names,
                  entries)
  {
    hide Environment, Frozen, SortedNames, InspectNames, Observed, WithTotal, EntriesOf, Quiet, LookupStat;
    hide MetadataStill;
    ghost var h, dir, start := host.history, host.descriptors[root].node, host.now;
    var error;
    names, error := BoundedEntryNames(host, root, limits.maxEntries);
    ghost var listed := host.now;
    if Quiet(h, start, listed) {
      QuietFreezes(h, start, listed, dir);
    }
    if error.Some? {
      blocked, entries := Some(BlockedScan(|names|, [error.value])), [];
      LimitStill(h(listed), dir, limits, parser, blocked, names, entries);
      return;
    }
    var blockers;
    entries, blockers := InspectEntries(host, root, names, limits, parser);
    QuietParts(h, start, listed, host.now);
    InspectedStill(h(host.now), dir, limits, parser, names, entries, blockers);
    if blockers != [] {
      blocked := Some(BlockedScan(|names|, blockers));
      return;
    }
    blocked := None;
    FrozenNames(h, start, listed, host.now, dir);
    Widened(h, start, listed, host.now, host.now, dir, entries);
  }

  lemma FrozenNames(h: History, lo: Instant, mid: Instant, hi: Instant, dir: NodeId)
    requires lo <= mid <= hi
    ensures Frozen(h, lo, hi, dir) ==> Frozen(h, lo, mid, dir) && EntriesOf(h(mid), dir) == EntriesOf(h(hi), dir)
  {
  }

  /** The first collection: names, metadata and digests, or the blocked scan they end in. */
  method Collect(host: Host, root: Fd, limits: Limits, parser: FilenameParser, hash: HashFunction)
    returns (blocked: Option<Scan>, names: seq<string>, entries: seq<CandidateEntry>, artifacts: seq<Artifact>)
    requires host.Valid() && root in host.descriptors
    modifies host`now, host`faults, host`descriptors, host`fstats, host`nextFd
    ensures host.Valid() && host.Later() && host.descriptors == old(host.descriptors)
    ensures blocked.Some? ==> blocked.value.blockers != []
                              && blocked.value == BlockedScan(blocked.value.entryCount, blocked.value.blockers)
    ensures blocked.None? ==>
              && |names| <= limits.maxEntries
              && Collected(host.history, old(host.now), host.now, host.descriptors[root].node, names, entries,
                  artifacts,
                           parser, hash)
    ensures Quiet(host.history, old(host.now), host.now) && host.faults == old(host.faults) ==>
              CollectedStill(host.history(host.now), host.descriptors[root].node, limits, parser, hash,
                             blocked, names, entries, artifacts)
  {
    hide Environment, Frozen, SortedNames, InspectNames, Observed, HashedEntries, ArtifactsIn, EntriesOf, Quiet,
        WithTotal;
    ghost var h, dir, start := host.history, host.descriptors[root].node, host.now;
    blocked, names, entries := CollectMetadata(host, root, limits, parser);
    if blocked.Some? {
      artifacts := [];
      return;
    }
    ghost var mid := host.now;
    var failed;
    artifacts, failed := HashEntries(host, root, entries, hash);
    QuietParts(h, start, mid, host.now);
    if Quiet(h, start, host.now) && host.faults == old(host.faults) {
      InspectedMatch(h(host.now), dir, SortedNames(EntriesOf(h(host.now), dir).Keys), limits, parser);
    }
    if failed.Some? {
      blocked := Some(BlockedScan(|names|, [EntryChanged(failed.value)]));
      return;
    }
    FrozenNames(h, start, mid, host.now, dir);
    Widened(h, start, start, mid, host.now, dir, entries);
    HashedEarlier(h, start, mid, host.now, entries, artifacts, hash);
  }

  /** A clean report of the directory, true at one instant from lo to hi after which the path
      still named it. */
  ghost predicate HeldSince(h: History, lo: Instant, hi: Instant, dir: NodeId, scan: Scan, hash: HashFunction) {
    exists t: Instant | lo <= t <= hi :: HeldAt(h(t), dir, scan, hash) && NamedDuring(h, t, hi, dir)
  }

  lemma StillUnblocked(s: State, dir: NodeId, metadata: Stat, limits: Limits, parser: FilenameParser,
                       hash: HashFunction,
                       names: seq<string>, entries: seq<CandidateEntry>, artifacts: seq<Artifact>)
    requires CollectedStill(s, dir, limits, parser, hash, None, names, entries, artifacts)
    requires s.candidate == Some(dir) && dir in s.nodes && s.nodes[dir].stat == metadata
    ensures SnapshotChanges(s, dir, metadata, names, entries, limits) == []
    ensures |names| == |EntriesOf(s, dir).Keys|
    ensures ScanOfDirectory(s, dir, limits, parser, hash)
         == Scan(|names|, InventoryGrouping.Grouped(artifacts), artifacts, [], MetadataIdentity(metadata))
  {
    hide SortedNames, ArtifactsIn;
    SortedNamesFacts(EntriesOf(s, dir).Keys);
    InspectedMatch(s, dir, names, limits, parser);
    NoEntryChanges(s, dir, entries);
  }

  lemma BlockedStill(s: State, dir: NodeId, limits: Limits, parser: FilenameParser, hash: HashFunction,
                     blocked: Scan, names: seq<string>, entries: seq<CandidateEntry>, artifacts: seq<Artifact>)
    requires dir in s.nodes
    ensures CollectedStill(s, dir, limits, parser, hash, Some(blocked), names, entries, artifacts) ==>
              blocked == ScanOfDirectory(s, dir, limits, parser, hash)
  {
  }

  lemma CollectedSizes(h: History, since: Instant, star: Instant, dir: NodeId, names: seq<string>,
                       entries: seq<CandidateEntry>, artifacts: seq<Artifact>, parser: FilenameParser,
                       hash: HashFunction)
    requires Collected(h, since, star, dir, names, entries, artifacts, parser, hash)
    ensures since <= star && |entries| == |names| == |artifacts|
  {
  }

  /** `_scan_candidate_directory` between opening and closing the directory. */
  method ScanOpened(host: Host, root: Fd, metadata: Stat, limits: Limits, parser: FilenameParser, hash: HashFunction)
    returns (scan: Scan)
    requires host.Valid() && root in host.descriptors
    requires var node := host.history(host.now).nodes[host.descriptors[root].node];
             node.content.DirEntries? && node.stat == metadata
    modifies host`now, host`faults, host`descriptors, host`fstats, host`nextFd
    ensures host.Valid() && host.Later() && host.descriptors == old(host.descriptors)
    ensures scan.blockers != [] ==> scan == BlockedScan(scan.entryCount, scan.blockers)
    ensures scan.blockers == [] ==>
              && CleanScan(scan, parser, limits)
              && HeldSince(host.history, old(host.now), host.now, host.descriptors[root].node, scan, hash)
    ensures Quiet(host.history, old(host.now), host.now) && host.faults == old(host.faults)
            && host.history(host.now).candidate == Some(host.descriptors[root].node) ==>
              scan == ScanOfDirectory(host.history(host.now), host.descriptors[root].node, limits, parser, hash)
  {
    hide Environment, Frozen, Collected, CollectedStill, SnapshotChanges, Quiet, Sort, InventoryGrouping.Grouped;
    hide HeldAt, NamedDuring, HashedEntries;
    ghost var h, dir, since := host.history, host.descriptors[root].node, host.now;
    var blocked, names, entries, artifacts := Collect(host, root, limits, parser, hash);
    ghost var star := host.now;
    if blocked.Some? {
      BlockedStill(h(host.now), dir, limits, parser, hash, blocked.value, names, entries, artifacts);
      return blocked.value;
    }
    var changes := SnapshotBlockers(host, root, metadata, names, entries, limits);
    QuietParts(h, since, star, host.now);
    QuietParts(h, since, since, host.now);
    if Quiet(h, since, host.now) && host.faults == old(host.faults) && h(host.now).candidate == Some(dir) {
      StillUnblocked(h(host.now), dir, metadata, limits, parser, hash, names, entries, artifacts);
    }
    if changes != [] {
      scan := BlockedScan(|names|, Dedup(changes));
      return;
    }
    CollectedSizes(h, since, star, dir, names, entries, artifacts, parser, hash);
    DoubleCollect(h, since, star, host.now, dir, metadata, names, entries, artifacts, parser, hash);
    var stable := Sort(artifacts, ArtifactLeq);
    var releases := InventoryGrouping.GroupReleases(stable);
    scan := Scan(|names|, releases, stable, [], MetadataIdentity(metadata));
    HeldAsReported(h(star), dir, metadata, scan, hash);
  }

  lemma HeldAsReported(s: State, dir: NodeId, metadata: Stat, scan: Scan, hash: HashFunction)
    requires dir in s.nodes && s.nodes[dir].content.DirEntries? && s.nodes[dir].stat == metadata
    requires NamesMatch(s, dir, scan.artifacts) && HoldsAll(s, dir, scan.artifacts, hash)
    requires scan.sourceIdentity == MetadataIdentity(metadata)
    ensures HeldAt(s, dir, scan, hash)
  {
  }

  lemma SnapshotFromHeld(h: History, lo: Instant, since: Instant, hi: Instant, dir: NodeId, scan: Scan,
                         hash: HashFunction)
    requires lo <= since <= hi && NamedDuring(h, lo, since, dir) && HeldSince(h, since, hi, dir, scan, hash)
    ensures AtomicSnapshot(h, lo, hi, scan, hash)
  {
    hide HeldAt;
    var t: Instant :| since <= t <= hi && HeldAt(h(t), dir, scan, hash) && NamedDuring(h, t, hi, dir);
    assert NamedDuring(h, lo, t, dir);
  }

  /** What any scan, clean or blocked, tells about the stretch of time in which it ran. */
  ghost predicate ScanFacts(h: History, lo: Instant, hi: Instant, scan: Scan, limits: Limits, parser: FilenameParser,
                            hash: HashFunction) {
    && (scan.blockers != [] ==> scan == BlockedScan(scan.entryCount, scan.blockers))
    && (scan.blockers == [] ==> CleanScan(scan, parser, limits) && AtomicSnapshot(h, lo, hi, scan, hash))
  }

  /** `_scan_candidate_directory` */
  method ScanCandidateDirectory(host: Host, limits: Limits, parser: FilenameParser, hash: HashFunction, noFollow: bool)
    returns (scan: Scan)
    requires host.Valid()
    modifies host`now, host`faults, host`descriptors, host`fstats, host`nextFd
    ensures host.Valid() && host.Later() && host.descriptors == old(host.descriptors)
    ensures ScanFacts(host.history, old(host.now), host.now, scan, limits, parser, hash)
    ensures Quiet(host.history, old(host.now), host.now) && host.faults == old(host.faults) ==>
              scan == ScanOf(host.history(host.now), limits, parser, hash, noFollow)
  {
    hide Environment, Quiet, HeldSince, CleanScan, RootBlockers, ScanOfDirectory, AtomicSnapshot, NamedDuring;
    ghost var h, start, table := host.history, host.now, host.descriptors;
    var root, metadata, blockers := OpenCandidateRoot(host, noFollow);
    if root.None? {
      scan := BlockedScan(0, blockers);
      return;
    }
    ghost var since, dir := host.now, host.descriptors[root.value].node;
    scan := ScanOpened(host, root.value, metadata.value, limits, parser, hash);
    QuietParts(h, start, since, host.now);
    host.Close(root.value);
    if scan.blockers == [] {
      SnapshotFromHeld(h, start, since, host.now, dir, scan, hash);
    }
  }
}
