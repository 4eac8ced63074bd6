/** One complete scan of the candidate directory. */
module InventoryScan {
  import opened Digests
  import opened Ordering
  import opened FileSystem
  import opened SystemCalls
  import opened InventoryContract
  import opened InventoryNames
  import opened InventoryHash
  import InventoryGrouping

  // What a scan finds in a directory that holds still.

  function RootBlockers(s: State, noFollow: bool): seq<Blocker> {
    match PathStat(s)
    case None => [DirectoryUnavailable]
    case Some(stat) =>
      if IsLink(stat.mode) then [RootSymlink]
      else if !IsDirectory(stat.mode) then [RootUnsafe]
      else if !noFollow then [NoFollowUnavailable]
      else []
  }

  /** What the inspection loop has gathered so far. */
  datatype Inspection = Inspection(entries: seq<CandidateEntry>, blockers: seq<Blocker>, total: nat)

  function InspectOne(acc: Inspection, name: string, found: Option<Stat>, limits: Limits,
                      parser: FilenameParser): Inspection {
    match found
    case None => acc.(blockers := acc.blockers + [EntryUnavailable(name)])
    case Some(stat) =>
      if !IsRegular(stat.mode) then acc.(blockers := acc.blockers + [EntryUnsafe(name)])
      else
        match parser.Parse(name)
        case None => acc.(blockers := acc.blockers + [ArtifactUnrecognized(name)])
        case Some(parsed) =>
          Inspection(acc.entries + [CandidateEntry(name, parsed, stat)],
                     acc.blockers + (if stat.size > limits.maxFileBytes
                                     then [FileSizeLimitExceeded(name, limits.maxFileBytes, stat.size)] else []),
                     acc.total + stat.size)
  }

  function InspectNames(s: State, dir: NodeId, names: seq<string>, limits: Limits, parser: FilenameParser): Inspection {
    if names == [] then Inspection([], [], 0)
    else
      var name := names[|names| - 1];
      InspectOne(InspectNames(s, dir, names[..|names| - 1], limits, parser), name, LookupStat(s, dir, name),
                 limits, parser)
  }

  function WithTotal(i: Inspection, limits: Limits): seq<Blocker> {
    i.blockers + if i.total > limits.maxTotalBytes then [TotalSizeLimitExceeded(limits.maxTotalBytes, i.total)] else []
  }

  function ArtifactOf(e: CandidateEntry, digest: string): Artifact {
    Artifact(e.name, e.parsed.package, e.parsed.version, ArtifactType(e.name), digest, e.metadata.size,
             MetadataIdentity(e.metadata))
  }

  function ArtifactsIn(s: State, dir: NodeId, entries: seq<CandidateEntry>, hash: HashFunction): seq<Artifact> {
    if entries == [] then []
    else
      var e := entries[|entries| - 1];
      ArtifactsIn(s, dir, entries[..|entries| - 1], hash)
      + [ArtifactOf(e, match HashIn(s, dir, e, hash) case Some(digest) => digest case None => "")]
  }

  ghost function ScanOfDirectory(s: State, dir: NodeId, limits: Limits, parser: FilenameParser,
                                 hash: HashFunction): Scan
    requires dir in s.nodes
  {
    var keys := EntriesOf(s, dir).Keys;
    var inspection := InspectNames(s, dir, SortedNames(keys), limits, parser);
    if |keys| > limits.maxEntries then
      BlockedScan(limits.maxEntries + 1, [EntryLimitExceeded(limits.maxEntries, limits.maxEntries + 1)])
    else if WithTotal(inspection, limits) != [] then
      BlockedScan(|keys|, WithTotal(inspection, limits))
    else
      var artifacts := ArtifactsIn(s, dir, inspection.entries, hash);
      Scan(|keys|, InventoryGrouping.Grouped(artifacts), artifacts, [], MetadataIdentity(s.nodes[dir].stat))
  }

  /** The whole scan of a state in which nothing moves and no call fails. */
  ghost function ScanOf(s: State, limits: Limits, parser: FilenameParser, hash: HashFunction, noFollow: bool): Scan {
    if RootBlockers(s, noFollow) != [] || !NamesDirectory(s) then BlockedScan(0, RootBlockers(s, noFollow))
    else ScanOfDirectory(s, s.candidate.value, limits, parser, hash)
  }

  // The scan's steps.

  /** os.path.samestat */
  predicate SameStat(a: Stat, b: Stat) {
    a.dev == b.dev && a.ino == b.ino
  }

  /** The tool's path named this directory at some instant from lo to hi. */
  ghost predicate NamedDuring(h: History, lo: Instant, hi: Instant, dir: NodeId) {
    exists t: Instant | lo <= t <= hi :: h(t).candidate == Some(dir)
  }

  /** The path named an object with this device and inode number at some instant from lo to hi. */
  ghost predicate PathHad(h: History, lo: Instant, hi: Instant, stat: Stat) {
    exists t: Instant | lo <= t <= hi ::
      PathStat(h(t)).Some? && PathStat(h(t)).value.dev == stat.dev && PathStat(h(t)).value.ino == stat.ino
  }

  /** `_open_candidate_root` */
  method OpenCandidateRoot(host: Host, noFollow: bool)
    returns (root: Option<Fd>, metadata: Option<Stat>, blockers: seq<Blocker>)
    requires host.Valid()
    modifies host`now, host`faults, host`descriptors, host`fstats, host`nextFd
    ensures host.Valid() && host.Later()
    ensures root.None? ==> host.descriptors == old(host.descriptors) && metadata.None? && blockers != []
    ensures root.Some? ==>
              && root.value !in old(host.descriptors) && root.value in host.descriptors
              && host.descriptors - {root.value} == old(host.descriptors)
              && blockers == [] && metadata.Some? && noFollow
              && NamedDuring(host.history, old(host.now), host.now, host.descriptors[root.value].node)
              && PathHad(host.history, old(host.now), host.now, metadata.value)
              && var node := host.history(host.now).nodes[host.descriptors[root.value].node];
                 node.content.DirEntries? && node.stat == metadata.value
    ensures Quiet(host.history, old(host.now), host.now) && host.faults == old(host.faults) ==>
              && blockers == RootBlockers(host.history(host.now), noFollow)
              && (root.Some? ==> host.history(host.now).candidate == Some(host.descriptors[root.value].node))
  {
    hide Environment;
    ghost var table, start := host.descriptors, host.now;
    var path := host.PathMetadata();
    ghost var named := host.now;
    if path.None? {
      return None, None, [DirectoryUnavailable];
    }
    if IsLink(path.value.mode) {
      return None, None, [RootSymlink];
    }
    if !IsDirectory(path.value.mode) {
      return None, None, [RootUnsafe];
    }
    if !noFollow {
      return None, None, [NoFollowUnavailable];
    }
    root := host.OpenDirectory();
    if root.None? {
      PathNamesDirectory(host.history, host.now);
      return None, None, [DirectoryUnavailable];
    }
    ghost var since, dir := host.now, host.descriptors[root.value].node;
    metadata := host.DescriptorMetadata(root.value);
    StaysDirectory(host.history, since, host.now, dir);
    if metadata.None? || !SameStat(path.value, metadata.value) {
      host.Close(root.value);
      assert host.descriptors == table;
      blockers := if metadata.None? then [DirectoryUnavailable] else [RootIdentityChanged];
      return None, None, blockers;
    }
    assert host.descriptors - {root.value} == table;
    assert PathStat(host.history(named)) == path;
    blockers := [];
  }

  lemma PathNamesDirectory(h: History, t: Instant)
    requires Environment(h)
    ensures PathStat(h(t)).Some? && IsDirectory(PathStat(h(t)).value.mode) ==> NamesDirectory(h(t))
  {
    assert WellFormed(h(t));
    if PathStat(h(t)).Some? {
      assert WellFormedNode(h(t).nodes[h(t).candidate.value]);
    }
  }

  /** `_bounded_entry_names` */
  method BoundedEntryNames(host: Host, root: Fd, maximum: nat) returns (names: seq<string>, error: Option<Blocker>)
    requires host.Valid() && root in host.descriptors
    modifies host`now, host`faults
    ensures host.Valid() && host.Later()
    ensures error.None? ==> |names| <= maximum
    ensures var dir := host.descriptors[root].node;
            Frozen(host.history, old(host.now), host.now, dir) && error.None? ==>
              names == SortedNames(EntriesOf(host.history(host.now), dir).Keys)
    ensures var dir := host.descriptors[root].node;
            Frozen(host.history, old(host.now), host.now, dir) && host.faults == old(host.faults) ==>
              if |EntriesOf(host.history(host.now), dir)| <= maximum then error == None
              else error == Some(EntryLimitExceeded(maximum, maximum + 1)) && |names| == maximum + 1
  {
    hide Environment, Sort;
    var listing, failed := host.ListDirectory(root);
    ghost var entries := EntriesOf(host.history(host.now), host.descriptors[root].node);
    ghost var still := Frozen(host.history, old(host.now), host.now, host.descriptors[root].node);
    if still {
      ListingBounded(listing, entries);
      if !failed {
        ListingSorts(listing, entries);
      }
    }
    names := [];
    for i := 0 to |listing|
      invariant names == listing[..i] && i <= maximum
    {
      names := names + [listing[i]];
      if |names| > maximum {
        SortPermutes(names, StringLeq);
        return Sort(names, StringLeq), Some(EntryLimitExceeded(maximum, |names|));
      }
    }
    assert names == listing;
    if failed {
      return [], Some(DirectoryUnavailable);
    }
    SortPermutes(names, StringLeq);
    return Sort(names, StringLeq), None;
  }

  /** What the observations of one inspection must add up to. */
  ghost predicate Inspected(h: History, lo: Instant, hi: Instant, dir: NodeId, names: seq<string>, i: Inspection,
                            parser: FilenameParser) {
    && (forall k | 0 <= k < |i.entries| ::
          && Observed(h, lo, hi, dir, i.entries[k])
          && IsRegular(i.entries[k].metadata.mode)
          && parser.Parse(i.entries[k].name) == Some(i.entries[k].parsed))
    && (i.blockers == [] ==> |i.entries| == |names| && forall k | 0 <= k < |names| :: i.entries[k].name == names[k])
  }

  lemma InspectOneMore(h: History, lo: Instant, mid: Instant, hi: Instant, dir: NodeId, names: seq<string>,
                       acc: Inspection, name: string, found: Option<Stat>, limits: Limits, parser: FilenameParser)
    requires lo <= mid <= hi && Inspected(h, lo, mid, dir, names, acc, parser)
    requires found.Some? ==> found == LookupStat(h(hi), dir, name)
    ensures Inspected(h, lo, hi, dir, names + [name], InspectOne(acc, name, found, limits, parser), parser)
  {
    var next := InspectOne(acc, name, found, limits, parser);
    forall k | 0 <= k < |next.entries| ensures Observed(h, lo, hi, dir, next.entries[k]) {
      if k < |acc.entries| {
        assert next.entries[k] == acc.entries[k];
        assert Observed(h, lo, mid, dir, acc.entries[k]);
      } else {
        assert LookupStat(h(hi), dir, name) == Some(next.entries[k].metadata);
      }
    }
  }

  /** `_inspect_entries` */
  method InspectEntries(host: Host, root: Fd, names: seq<string>, limits: Limits, parser: FilenameParser)
    returns (entries: seq<CandidateEntry>, blockers: seq<Blocker>)
    requires host.Valid() && root in host.descriptors
    modifies host`now, host`faults
    ensures host.Valid() && host.Later()
    ensures forall k | 0 <= k < |entries| ::
              && Observed(host.history, old(host.now), host.now, host.descriptors[root].node, entries[k])
              && IsRegular(entries[k].metadata.mode)
              && parser.Parse(entries[k].name) == Some(entries[k].parsed)
    ensures blockers == [] ==> |entries| == |names| && forall k | 0 <= k < |names| :: entries[k].name == names[k]
    ensures Quiet(host.history, old(host.now), host.now) && host.faults == old(host.faults) ==>
              var i := InspectNames(host.history(host.now), host.descriptors[root].node, names, limits, parser);
              entries == i.entries && blockers == WithTotal(i, limits)
  {
    hide Environment, Inspected;
    ghost var h, dir, start := host.history, host.descriptors[root].node, host.now;
    var acc := Inspection([], [], 0);
    assert Inspected(h, start, start, dir, names[..0], acc, parser) by { EmptyInspection(h, start, dir, parser); }
    for i := 0 to |names|
      invariant host.Valid() && host.Later() && host.descriptors == old(host.descriptors)
      invariant Inspected(h, start, host.now, dir, names[..i], acc, parser)
      invariant Quiet(h, start, host.now) && host.faults == old(host.faults) ==>
                  acc == InspectNames(h(host.now), dir, names[..i], limits, parser)
    {
      ghost var mid := host.now;
      var metadata := host.EntryStat(root, names[i]);
      InspectOneMore(h, start, mid, host.now, dir, names[..i], acc, names[i], metadata, limits, parser);
      assert names[..i + 1] == names[..i] + [names[i]];
      assert names[..i + 1][..i] == names[..i];
      acc := InspectStep(acc, names[i], metadata, limits, parser);
    }
    assert names[..|names|] == names;
    FinishedInspection(h, start, host.now, dir, names, acc, parser);
    entries, blockers := acc.entries, acc.blockers;
    if acc.total > limits.maxTotalBytes {
      blockers := blockers + [TotalSizeLimitExceeded(limits.maxTotalBytes, acc.total)];
    }
  }

  lemma EmptyInspection(h: History, t: Instant, dir: NodeId, parser: FilenameParser)
    ensures Inspected(h, t, t, dir, [], Inspection([], [], 0), parser)
  {
  }

  lemma FinishedInspection(h: History, lo: Instant, hi: Instant, dir: NodeId, names: seq<string>, i: Inspection,
                           parser: FilenameParser)
    requires Inspected(h, lo, hi, dir, names, i, parser)
    ensures forall k | 0 <= k < |i.entries| ::
              && Observed(h, lo, hi, dir, i.entries[k])
              && IsRegular(i.entries[k].metadata.mode)
              && parser.Parse(i.entries[k].name) == Some(i.entries[k].parsed)
    ensures i.blockers == [] ==> |i.entries| == |names| && forall k | 0 <= k < |names| :: i.entries[k].name == names[k]
  {
  }

  /** The body of the inspection loop: one of four outcomes for a name. */
  method InspectStep(acc: Inspection, name: string, metadata: Option<Stat>, limits: Limits, parser: FilenameParser)
    returns (next: Inspection)
    ensures next == InspectOne(acc, name, metadata, limits, parser)
  {
    var entries, blockers, total := acc.entries, acc.blockers, acc.total;
    if metadata.None? {
      blockers := blockers + [EntryUnavailable(name)];
    } else if !IsRegular(metadata.value.mode) {
      blockers := blockers + [EntryUnsafe(name)];
    } else {
      var parsed := parser.Parse(name);
      if parsed.None? {
        blockers := blockers + [ArtifactUnrecognized(name)];
      } else {
        if metadata.value.size > limits.maxFileBytes {
          blockers := blockers + [FileSizeLimitExceeded(name, limits.maxFileBytes, metadata.value.size)];
        }
        total := total + metadata.value.size;
        entries := entries + [CandidateEntry(name, parsed.value, metadata.value)];
      }
    }
    next := Inspection(entries, blockers, total);
  }

  // The second collection.

  function EntryChanges(s: State, dir: NodeId, entries: seq<CandidateEntry>): seq<Blocker> {
    if entries == [] then []
    else
      var e := entries[|entries| - 1];
      EntryChanges(s, dir, entries[..|entries| - 1])
      + if LookupStat(s, dir, e.name) == Some(e.metadata) then [] else [EntryChanged(e.name)]
  }

  ghost function RootChanges(s: State, dir: NodeId, metadata: Stat, names: seq<string>, limits: Limits): seq<Blocker> {
    var keys := EntriesOf(s, dir).Keys;
    (if |keys| <= limits.maxEntries && SortedNames(keys) == names then [] else [RootEntriesChanged])
    + (if PathStat(s) == Some(metadata) then [] else [RootIdentityChanged])
  }

  ghost function SnapshotChanges(s: State, dir: NodeId, metadata: Stat, names: seq<string>,
                                 entries: seq<CandidateEntry>, limits: Limits): seq<Blocker> {
    RootChanges(s, dir, metadata, names, limits) + EntryChanges(s, dir, entries)
  }

  ghost predicate PathShowed(h: History, lo: Instant, hi: Instant, metadata: Stat) {
    exists t: Instant | lo <= t <= hi :: PathStat(h(t)) == Some(metadata)
  }

  predicate SameIdentity(current: Option<Stat>, expected: Stat) {
    current.Some? && MetadataIdentity(current.value) == MetadataIdentity(expected)
  }

  lemma SameIdentityIsEqual(current: Option<Stat>, expected: Stat)
    ensures SameIdentity(current, expected) <==> current == Some(expected)
  {
    if current.Some? {
      IdentityIsExact(current.value, expected);
    }
  }

  lemma NoEntryChanges(s: State, dir: NodeId)
    ensures EntryChanges(s, dir, []) == []
  {
  }

  lemma NextEntryChange(s: State, dir: NodeId, entries: seq<CandidateEntry>, i: nat)
    requires i < |entries|
    ensures EntryChanges(s, dir, entries[..i + 1])
            == EntryChanges(s, dir, entries[..i])
               + if LookupStat(s, dir, entries[i].name) == Some(entries[i].metadata) then []
                 else [EntryChanged(entries[i].name)]
  {
    assert entries[..i + 1][..i] == entries[..i];
  }

  /** `_snapshot_blockers` */
  method SnapshotBlockers(host: Host, root: Fd, metadata: Stat, names: seq<string>, entries: seq<CandidateEntry>,
                          limits: Limits)
    returns (blockers: seq<Blocker>)
    requires host.Valid() && root in host.descriptors
    modifies host`now, host`faults
    ensures host.Valid() && host.Later()
    ensures blockers == [] ==>
              && PathShowed(host.history, old(host.now), host.now, metadata)
              && forall k | 0 <= k < |entries| ::
                   Observed(host.history, old(host.now), host.now, host.descriptors[root].node, entries[k])
    ensures Quiet(host.history, old(host.now), host.now) && host.faults == old(host.faults) ==>
              blockers == SnapshotChanges(host.history(host.now), host.descriptors[root].node, metadata, names,
                  entries, limits)
  {
    hide Environment, EntryChanges, Observed, RootChanges, PathShowed;
    ghost var h, dir, start := host.history, host.descriptors[root].node, host.now;
    var onRoot := ChangedRoot(host, root, metadata, names, limits);
    ghost var confirmed := host.now;
    QuietPrefix(h, start, confirmed);
    var changed := ChangedEntries(host, root, entries);
    blockers := onRoot + changed;
    if blockers == [] {
      PathShowedLater(h, start, confirmed, host.now, metadata);
      forall k | 0 <= k < |entries| ensures Observed(h, start, host.now, dir, entries[k]) {
        ObservedWider(h, start, confirmed, host.now, host.now, dir, entries[k]);
      }
    }
  }

  /** The directory part of `_snapshot_blockers`: list again, then stat the path again. */
  method ChangedRoot(host: Host, root: Fd, metadata: Stat, names: seq<string>, limits: Limits)
    returns (blockers: seq<Blocker>)
    requires host.Valid() && root in host.descriptors
    modifies host`now, host`faults
    ensures host.Valid() && host.Later()
    ensures blockers == [] ==> PathShowed(host.history, old(host.now), host.now, metadata)
    ensures Quiet(host.history, old(host.now), host.now) && host.faults == old(host.faults) ==>
              blockers == RootChanges(host.history(host.now), host.descriptors[root].node, metadata, names, limits)
  {
    hide Environment, SortedNames, Frozen;
    ghost var h, dir, start := host.history, host.descriptors[root].node, host.now;
    var again, error := BoundedEntryNames(host, root, limits.maxEntries);
    if Quiet(h, start, host.now) {
      QuietFreezes(h, start, host.now, dir);
    }
    QuietPrefix(h, start, host.now);
    blockers := if error == None && again == names then [] else [RootEntriesChanged];
    var current := host.PathMetadata();
    SameIdentityIsEqual(current, metadata);
    if !SameIdentity(current, metadata) {
      blockers := blockers + [RootIdentityChanged];
    }
  }

  lemma PathShowedLater(h: History, lo: Instant, mid: Instant, hi: Instant, metadata: Stat)
    requires mid <= hi && PathShowed(h, lo, mid, metadata)
    ensures PathShowed(h, lo, hi, metadata)
  {
  }

  lemma ObservedWider(h: History, lo: Instant, lo': Instant, hi': Instant, hi: Instant, dir: NodeId, e: CandidateEntry)
    requires lo <= lo' && hi' <= hi && Observed(h, lo', hi', dir, e)
    ensures Observed(h, lo, hi, dir, e)
  {
  }

  /** The entry loop of `_snapshot_blockers`. */
  method ChangedEntries(host: Host, root: Fd, entries: seq<CandidateEntry>) returns (blockers: seq<Blocker>)
    requires host.Valid() && root in host.descriptors
    modifies host`now, host`faults
    ensures host.Valid() && host.Later()
    ensures blockers == [] ==>
              forall k | 0 <= k < |entries| ::
                Observed(host.history, old(host.now), host.now, host.descriptors[root].node, entries[k])
    ensures Quiet(host.history, old(host.now), host.now) && host.faults == old(host.faults) ==>
              blockers == EntryChanges(host.history(host.now), host.descriptors[root].node, entries)
  {
    hide Environment, SameIdentity, LookupStat, EntryChanges;
    ghost var h, dir, start := host.history, host.descriptors[root].node, host.now;
    blockers := [];
    NoEntryChanges(h(start), dir);
    for i := 0 to |entries|
      invariant host.Valid() && host.Later() && host.descriptors == old(host.descriptors)
      invariant blockers == [] ==> forall k | 0 <= k < i :: Observed(h, start, host.now, dir, entries[k])
      invariant Quiet(h, start, host.now) && host.faults == old(host.faults) ==>
                  blockers == EntryChanges(h(host.now), dir, entries[..i])
    {
      var current := host.EntryStat(root, entries[i].name);
      SameIdentityIsEqual(current, entries[i].metadata);
      NextEntryChange(h(host.now), dir, entries, i);
      if !SameIdentity(current, entries[i].metadata) {
        blockers := blockers + [EntryChanged(entries[i].name)];
      }
    }
    assert entries[..|entries|] == entries;
  }
}
