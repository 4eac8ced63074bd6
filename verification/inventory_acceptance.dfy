/** The exact condition under which a directory that holds still is accepted, and a history
    that shows the environment assumption can be met. */
module InventoryAcceptance {
  import opened Digests
  import opened FileSystem
  import opened SystemCalls
  import opened InventoryContract
  import opened InventoryNames
  import opened InventoryScan

  ghost predicate AcceptableEntry(s: State, dir: NodeId, name: string, limits: Limits, parser: FilenameParser) {
    && LookupStat(s, dir, name).Some?
    && IsRegular(LookupStat(s, dir, name).value.mode)
    && LookupStat(s, dir, name).value.size <= limits.maxFileBytes
    && parser.Parse(name).Some?
  }

  function SizeOf(s: State, dir: NodeId, name: string): nat {
    match LookupStat(s, dir, name) case Some(stat) => stat.size case None => 0
  }

  function TotalSize(s: State, dir: NodeId, names: seq<string>): nat {
    if names == [] then 0
    else TotalSize(s, dir, names[..|names| - 1]) + SizeOf(s, dir, names[|names| - 1])
  }

  lemma {:induction false} CleanInspection(s: State, dir: NodeId, names: seq<string>, limits: Limits,
                                           parser: FilenameParser)
    ensures var i := InspectNames(s, dir, names, limits, parser);
            && (i.blockers == [] <==> forall k | 0 <= k < |names| :: AcceptableEntry(s, dir, names[k], limits, parser))
            && (i.blockers == [] ==> i.total == TotalSize(s, dir, names))
  {
    if names != [] {
      CleanInspection(s, dir, names[..|names| - 1], limits, parser);
    }
  }

  /** Every entry is a regular file with a distribution's name and an allowed size, and there
      are not too many of them, in number or in bytes. */
  ghost predicate Acceptable(s: State, limits: Limits, parser: FilenameParser, noFollow: bool) {
    && NamesDirectory(s) && noFollow
    && var dir := s.candidate.value;
       var names := SortedNames(EntriesOf(s, dir).Keys);
       && |names| <= limits.maxEntries
       && (forall k | 0 <= k < |names| :: AcceptableEntry(s, dir, names[k], limits, parser))
       && TotalSize(s, dir, names) <= limits.maxTotalBytes
  }

  /** A still directory is accepted exactly when it is acceptable. */
  lemma AcceptedExactly(h: History, t: Instant, limits: Limits, parser: FilenameParser, hash: HashFunction,
                        noFollow: bool)
    requires Environment(h)
    ensures ScanOf(h(t), limits, parser, hash, noFollow).blockers == [] <==> Acceptable(h(t), limits, parser, noFollow)
  {
    var s := h(t);
    RootPasses(h, t, noFollow);
    if NamesDirectory(s) {
      var dir := s.candidate.value;
      SortedNamesFacts(EntriesOf(s, dir).Keys);
      CleanInspection(s, dir, SortedNames(EntriesOf(s, dir).Keys), limits, parser);
    }
  }

  lemma RootPasses(h: History, t: Instant, noFollow: bool)
    requires Environment(h)
    ensures RootBlockers(h(t), noFollow) == [] <==> NamesDirectory(h(t)) && noFollow
  {
    PathNamesDirectory(h, t);
    if NamesDirectory(h(t)) {
      assert WellFormed(h(t));
      assert WellFormedNode(h(t).nodes[h(t).candidate.value]);
    }
  }

  /** Any well-formed state with distinct metadata, kept for ever, is a possible history. */
  lemma StillHistory(s: State)
    requires WellFormed(s) && DistinctStats(s)
    ensures Environment((t: Instant) => s)
  {
    var h := (t: Instant) => s;
    forall t: Instant ensures FreshStep(h, t) {
      assert h(t) == h(t + 1) == s;
    }
  }

  /** So is any history followed by one more change, if what changes gets new metadata. */
  lemma OneMoreChange(before: State, after: State)
    requires WellFormed(before) && DistinctStats(before) && WellFormed(after)
    requires forall n | n in before.nodes :: n in after.nodes && KeepsKind(before.nodes[n], after.nodes[n])
    requires forall n | n in after.nodes && !(n in before.nodes && before.nodes[n] == after.nodes[n]) ::
               StatOnlyOn(after, n) && forall m | m in before.nodes :: before.nodes[m].stat != after.nodes[n].stat
    ensures Environment((t: Instant) => if t == 0 then before else after)
  {
    var h := (t: Instant) => if t == 0 then before else after;
    forall t: Instant ensures FreshStep(h, t) {
      if t == 0 {
        forall n | n in h(1).nodes && !(n in h(0).nodes && h(0).nodes[n] == h(1).nodes[n])
          ensures !SeenBy(h, 0, h(1).nodes[n].stat)
        {
        }
      } else {
        assert h(t) == h(t + 1) == after;
      }
    }
  }
}
