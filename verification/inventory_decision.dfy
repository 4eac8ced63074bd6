/** When the release command returns 0 for a directory that holds still, in terms of the directory
    and the arguments alone. */
module InventoryDecision {
  import opened Digests
  import opened Ordering
  import opened FileSystem
  import opened SystemCalls
  import opened InventoryContract
  import opened InventoryNames
  import opened InventoryHash
  import opened InventoryScan
  import opened InventorySnapshot
  import opened InventoryRevalidation
  import opened InventoryAcceptance
  import opened InventoryRelease
  import opened InventoryClosedSet
  import opened InventoryReports
  import InventoryValidation

  // What a clean scan of a still directory contains.

  lemma {:induction false} InspectedEntries(s: State, dir: NodeId, names: seq<string>, limits: Limits,
                                            parser: FilenameParser)
    requires InspectNames(s, dir, names, limits, parser).blockers == []
    ensures var entries := InspectNames(s, dir, names, limits, parser).entries;
            && |entries| == |names|
            && forall k | 0 <= k < |names| ::
                 entries[k].name == names[k] && parser.Parse(names[k]) == Some(entries[k].parsed)
  {
    if names != [] {
      InspectedEntries(s, dir, names[..|names| - 1], limits, parser);
    }
  }

  lemma {:induction false} ArtifactsEach(s: State, dir: NodeId, entries: seq<CandidateEntry>, hash: HashFunction)
    ensures var artifacts := ArtifactsIn(s, dir, entries, hash);
            && |artifacts| == |entries|
            && forall k | 0 <= k < |entries| :: artifacts[k] == ArtifactOf(entries[k], artifacts[k].sha256)
  {
    if entries != [] {
      ArtifactsEach(s, dir, entries[..|entries| - 1], hash);
    }
  }

  /** The scan of a still directory lists its names in order, each with what the name says. */
  lemma StillScan(h: History, t: Instant, limits: Limits, parser: FilenameParser, hash: HashFunction, noFollow: bool)
    requires Environment(h) && ScanOf(h(t), limits, parser, hash, noFollow).blockers == []
    ensures var scan := ScanOf(h(t), limits, parser, hash, noFollow);
            && NamesDirectory(h(t))
            && CleanScan(scan, parser, limits)
            && Filenames(scan.artifacts) == SortedNames(EntriesOf(h(t), h(t).candidate.value).Keys)
  {
    var s := h(t);
    RootPasses(h, t, noFollow);
    hide RootBlockers, Environment, SortedNames;
    assert NamesDirectory(s);
    var dir := s.candidate.value;
    var names := SortedNames(EntriesOf(s, dir).Keys);
    SortedNamesFacts(EntriesOf(s, dir).Keys);
    StillArtifacts(s, dir, names, limits, parser, hash);
  }

  lemma StillArtifacts(s: State, dir: NodeId, names: seq<string>, limits: Limits, parser: FilenameParser,
                       hash: HashFunction)
    requires InspectNames(s, dir, names, limits, parser).blockers == []
    ensures var artifacts := ArtifactsIn(s, dir, InspectNames(s, dir, names, limits, parser).entries, hash);
            Filenames(artifacts) == names && InventorySnapshot.Parsed(parser, artifacts)
  {
    InspectedEntries(s, dir, names, limits, parser);
    var entries := InspectNames(s, dir, names, limits, parser).entries;
    ArtifactsEach(s, dir, entries, hash);
    hide InspectNames, ArtifactsIn;
  }

  // The closed set, by the names in the directory.

  /** What the name of a wheel or of an sdist says. */
  ghost function Said(parser: FilenameParser, name: string): Option<Parsed> {
    if HasSuffix(name, ".whl") then parser.wheel(name)
    else if HasSuffix(name, ".tar.gz") then parser.sdist(name)
    else None
  }

  ghost predicate IsFileOf(parser: FilenameParser, name: string, package: string, suffix: string) {
    HasSuffix(name, suffix) && Said(parser, name).Some? && Said(parser, name).value.package == package
  }

  /** Every name is a wheel or an sdist of one of the five packages at the version, and each of the
      five has exactly one of either kind. */
  ghost predicate ReleaseSet(names: set<string>, version: string, parser: FilenameParser) {
    && (forall name | name in names ::
          && Said(parser, name).Some? && Said(parser, name).value.version == version
          && Said(parser, name).value.package in Packages5())
    && (forall package | package in Packages5() ::
          UniqueFile(names, parser, package, ".whl") && UniqueFile(names, parser, package, ".tar.gz"))
  }

  ghost predicate UniqueFile(names: set<string>, parser: FilenameParser, package: string, suffix: string) {
    exists name | name in names ::
      && IsFileOf(parser, name, package, suffix)
      && forall other | other in names && IsFileOf(parser, other, package, suffix) :: other == name
  }

  lemma SaidIsParsed(parser: FilenameParser, name: string)
    ensures Said(parser, name)
         == if EndsWith(name, ".whl") || EndsWith(name, ".tar.gz") then parser.Parse(name) else None
  {
    SuffixIsEnding(name, ".whl");
    SuffixIsEnding(name, ".tar.gz");
    hide EndsWith, HasSuffix;
  }

  lemma SlotOf(a: Artifact, parser: FilenameParser)
    requires NamedBy(parser, a)
    ensures Slot(a) in EXPECTED_SLOTS
            <==> a.package in Packages5() && (EndsWith(a.filename, ".whl") || EndsWith(a.filename, ".tar.gz"))
    ensures forall p :: Slot(a) == (p, "wheel") <==> IsFileOf(parser, a.filename, p, ".whl")
    ensures forall p :: Slot(a) == (p, "sdist") <==> IsFileOf(parser, a.filename, p, ".tar.gz")
  {
    FivePackages();
    TypeBySuffix(a, parser);
    NamedFields(a, parser);
    SaidIsParsed(parser, a.filename);
    SuffixIsEnding(a.filename, ".whl");
    SuffixIsEnding(a.filename, ".tar.gz");
    hide EndsWith, NamedBy, Said, HasSuffix;
    assert "wheel"[0] != "sdist"[0];
  }

  function SuffixOf(kind: string): string {
    if kind == "wheel" then ".whl" else ".tar.gz"
  }

  lemma Kinds()
    ensures "wheel" != "sdist"
    ensures forall p, k :: (p, k) in EXPECTED_SLOTS <==> p in Packages5() && (k == "wheel" || k == "sdist")
  {
    FivePackages();
    assert "wheel"[0] != "sdist"[0];
  }

  /** A slot is a package and a suffix. */
  lemma SlotIsFile(a: Artifact, parser: FilenameParser, p: string, k: string)
    requires NamedBy(parser, a) && (k == "wheel" || k == "sdist")
    ensures Slot(a) == (p, k) <==> IsFileOf(parser, a.filename, p, SuffixOf(k))
  {
    SlotOf(a, parser);
    Kinds();
  }

  lemma ClosedIsReleaseSet(artifacts: seq<Artifact>, version: string, parser: FilenameParser)
    requires AllNamedBy(parser, artifacts) && ClosedSet(artifacts, version)
    ensures ReleaseSet(Elements(Filenames(artifacts)), version, parser)
  {
    hide AllNamedBy, ClosedSet, Filenames, Elements, EndsWith, UniqueFile, Said;
    var names := Elements(Filenames(artifacts));
    forall name | name in names
      ensures Said(parser, name).Some? && Said(parser, name).value.version == version
      ensures Said(parser, name).value.package in Packages5()
    {
      ClosedName(artifacts, version, parser, name);
    }
    forall package | package in Packages5()
      ensures UniqueFile(names, parser, package, ".whl") && UniqueFile(names, parser, package, ".tar.gz")
    {
      ClosedUnique(artifacts, version, parser, package, "wheel");
      ClosedUnique(artifacts, version, parser, package, "sdist");
    }
  }

  lemma ClosedName(artifacts: seq<Artifact>, version: string, parser: FilenameParser, name: string)
    requires AllNamedBy(parser, artifacts) && ClosedSet(artifacts, version) && name in Elements(Filenames(artifacts))
    ensures Said(parser, name).Some? && Said(parser, name).value.version == version
    ensures Said(parser, name).value.package in Packages5()
  {
    hide NamedBy, EndsWith, NoDuplicates, Said;
    var i :| 0 <= i < |artifacts| && Filenames(artifacts)[i] == name;
    assert Slots(artifacts)[i] in Elements(Slots(artifacts));
    SlotOf(artifacts[i], parser);
    NamedFields(artifacts[i], parser);
      SaidIsParsed(parser, artifacts[i].filename);
  }

  lemma NamedFields(a: Artifact, parser: FilenameParser)
    requires NamedBy(parser, a)
    ensures parser.Parse(a.filename) == Some(InventoryContract.Parsed(a.package, a.version))
  {
  }

  lemma ClosedUnique(artifacts: seq<Artifact>, version: string, parser: FilenameParser, package: string, kind: string)
    requires AllNamedBy(parser, artifacts) && ClosedSet(artifacts, version)
    requires package in Packages5() && (kind == "wheel" || kind == "sdist")
    ensures UniqueFile(Elements(Filenames(artifacts)), parser, package, SuffixOf(kind))
  {
    hide NamedBy, IsFileOf, EndsWith;
    var names, slots := Elements(Filenames(artifacts)), Slots(artifacts);
    Kinds();
    assert (package, kind) in Elements(slots);
    var k :| 0 <= k < |slots| && slots[k] == (package, kind);
    var name := artifacts[k].filename;
    SlotIsFile(artifacts[k], parser, package, kind);
    assert Filenames(artifacts)[k] in names;
    forall other | other in names && IsFileOf(parser, other, package, SuffixOf(kind)) ensures other == name {
      var j :| 0 <= j < |artifacts| && Filenames(artifacts)[j] == other;
      SlotIsFile(artifacts[j], parser, package, kind);
      DistinctIndex(slots, j, k);
    }
  }

  lemma ReleaseSetIsClosed(artifacts: seq<Artifact>, version: string, parser: FilenameParser)
    requires AllNamedBy(parser, artifacts) && NoDuplicates(Filenames(artifacts))
    requires ReleaseSet(Elements(Filenames(artifacts)), version, parser)
    ensures ClosedSet(artifacts, version)
  {
    hide NamedBy, IsFileOf, EndsWith, UniqueFile, Said;
    var names, slots := Elements(Filenames(artifacts)), Slots(artifacts);
    Kinds();
    forall i | 0 <= i < |artifacts| ensures artifacts[i].version == version && slots[i] in EXPECTED_SLOTS {
      assert Filenames(artifacts)[i] in names;
      SlotOf(artifacts[i], parser);
      NamedFields(artifacts[i], parser);
      SaidIsParsed(parser, artifacts[i].filename);
    }
    forall i, j | 0 <= i < j < |slots| ensures slots[i] != slots[j] {
      assert Filenames(artifacts)[i] != Filenames(artifacts)[j];
      if slots[i] == slots[j] {
        OneSlot(artifacts, parser, slots[i].0, slots[i].1, i, j);
      }
    }
    forall s | s in EXPECTED_SLOTS ensures s in Elements(slots) {
      assert s == (s.0, s.1);
      SlotHeld(artifacts, parser, s.0, s.1);
    }
  }

  lemma OneSlot(artifacts: seq<Artifact>, parser: FilenameParser, p: string, k: string, i: nat, j: nat)
    requires AllNamedBy(parser, artifacts) && i < |artifacts| && j < |artifacts| && (k == "wheel" || k == "sdist")
    requires UniqueFile(Elements(Filenames(artifacts)), parser, p, SuffixOf(k))
    requires Slot(artifacts[i]) == (p, k) == Slot(artifacts[j])
    ensures artifacts[i].filename == artifacts[j].filename
  {
    hide NamedBy, IsFileOf;
    SlotIsFile(artifacts[i], parser, p, k);
    SlotIsFile(artifacts[j], parser, p, k);
    assert Filenames(artifacts)[i] in Filenames(artifacts) && Filenames(artifacts)[j] in Filenames(artifacts);
  }

  lemma SlotHeld(artifacts: seq<Artifact>, parser: FilenameParser, p: string, k: string)
    requires AllNamedBy(parser, artifacts) && (k == "wheel" || k == "sdist")
    requires UniqueFile(Elements(Filenames(artifacts)), parser, p, SuffixOf(k))
    ensures (p, k) in Elements(Slots(artifacts))
  {
    hide NamedBy, IsFileOf;
    var names := Elements(Filenames(artifacts));
    var name :| name in names && IsFileOf(parser, name, p, SuffixOf(k));
    var i :| 0 <= i < |artifacts| && Filenames(artifacts)[i] == name;
    SlotIsFile(artifacts[i], parser, p, k);
    assert Slots(artifacts)[i] in Slots(artifacts);
  }

  lemma ClosedByNames(artifacts: seq<Artifact>, version: string, parser: FilenameParser)
    requires AllNamedBy(parser, artifacts) && NoDuplicates(Filenames(artifacts))
    ensures ClosedSet(artifacts, version) <==> ReleaseSet(Elements(Filenames(artifacts)), version, parser)
  {
    hide AllNamedBy, ClosedSet, ReleaseSet;
    if ClosedSet(artifacts, version) {
      ClosedIsReleaseSet(artifacts, version, parser);
    }
    if ReleaseSet(Elements(Filenames(artifacts)), version, parser) {
      ReleaseSetIsClosed(artifacts, version, parser);
    }
  }

  // The theorem.

  /** The name is that of a regular file of at most this many bytes. */
  ghost predicate SmallFile(s: State, dir: NodeId, name: string, maximum: nat) {
    && Resolves(s, dir, name)
    && s.nodes[Resolve(s, dir, name)].content.FileBytes?
    && |s.nodes[Resolve(s, dir, name)].content.bytes| <= maximum
  }

  function TotalBytes(s: State, dir: NodeId, names: seq<string>): nat {
    if names == [] then 0
    else
      var name := names[|names| - 1];
      TotalBytes(s, dir, names[..|names| - 1])
      + if Resolves(s, dir, name) then |BytesOf(s, Resolve(s, dir, name))| else 0
  }

  lemma SmallFileIsRegular(h: History, t: Instant, dir: NodeId, name: string, maximum: nat)
    requires Environment(h)
    ensures var found := LookupStat(h(t), dir, name);
            SmallFile(h(t), dir, name, maximum)
            <==> found.Some? && IsRegular(found.value.mode) && found.value.size <= maximum
  {
    if Resolves(h(t), dir, name) {
      var n := Resolve(h(t), dir, name);
      assert WellFormed(h(t));
      assert WellFormedNode(h(t).nodes[n]);
    }
  }

  lemma {:induction false} SameTotal(h: History, t: Instant, dir: NodeId, names: seq<string>, maximum: nat)
    requires Environment(h) && forall k | 0 <= k < |names| :: SmallFile(h(t), dir, names[k], maximum)
    ensures TotalSize(h(t), dir, names) == TotalBytes(h(t), dir, names)
  {
    if names != [] {
      SameTotal(h, t, dir, names[..|names| - 1], maximum);
      var name := names[|names| - 1];
      assert WellFormed(h(t));
      assert WellFormedNode(h(t).nodes[Resolve(h(t), dir, name)]);
    }
  }

  /** The directory that the release command accepts: the path names it; all its entries are regular
      files of at most 128 MiB, together at most 512 MiB; and they are a release set. */
  ghost predicate GoodDirectory(s: State, version: string, parser: FilenameParser) {
    && NamesDirectory(s)
    && var dir := s.candidate.value;
       var names := EntriesOf(s, dir).Keys;
       && (forall name | name in names :: SmallFile(s, dir, name, 134217728))
       && TotalBytes(s, dir, SortedNames(names)) <= 536870912
       && ReleaseSet(names, version, parser)
  }

  /** The exit code, exactly: for a directory that holds still, with no call failing. */
  lemma ExitCodeExactly(h: History, t: Instant, args: Arguments, parser: FilenameParser, hash: HashFunction,
                        noFollow: bool, passed: bool)
    requires Environment(h)
    ensures var good := && noFollow && GoodDirectory(h(t), args.expectedVersion, parser)
                        && 0 <= args.timeoutSeconds <= 3600 && 1 <= args.pollIntervalSeconds <= 300;
            var code := StillExitCode(h(t), args, parser, hash, noFollow, passed);
            && (code == 0 <==> good && (args.inventoryOnly || passed))
            && (code == 1 <==> good && !args.inventoryOnly && !passed)
            && (code == 2 <==> !good)
  {
    hide ScanOf, ReportOf, GoodDirectory;
    StillPasses(h, t, args.expectedVersion, parser, hash, noFollow);
  }

  lemma StillPasses(h: History, t: Instant, version: string, parser: FilenameParser, hash: HashFunction, noFollow: bool)
    requires Environment(h)
    ensures ReportOf(ScanOf(h(t), DefaultLimits(), parser, hash, noFollow), version).blockers == []
            <==> noFollow && GoodDirectory(h(t), version, parser)
  {
    hide ScanOf, ReportOf, Acceptable, Environment, SortedNames, EntriesOf, ReleaseSet, CleanScan, ClosedSet;
    var scan := ScanOf(h(t), DefaultLimits(), parser, hash, noFollow);
    AcceptedExactly(h, t, DefaultLimits(), parser, hash, noFollow);
    if scan.blockers != [] {
      ReportBlocked(scan, version);
    } else {
      StillScan(h, t, DefaultLimits(), parser, hash, noFollow);
      CleanPasses(scan, version, DefaultLimits(), parser);
      CleanIsNamed(h(t), scan, version, parser);
    }
    AcceptableIsGood(h, t, version, parser, noFollow);
  }

  lemma CleanIsNamed(s: State, scan: Scan, version: string, parser: FilenameParser)
    requires CleanScan(scan, parser, DefaultLimits()) && NamesDirectory(s)
    requires Filenames(scan.artifacts) == SortedNames(EntriesOf(s, s.candidate.value).Keys)
    ensures ClosedSet(scan.artifacts, version) <==> ReleaseSet(EntriesOf(s, s.candidate.value).Keys, version, parser)
  {
    hide ClosedSet, ReleaseSet, SortedNames, Filenames;
    var names := EntriesOf(s, s.candidate.value).Keys;
    SortedNamesFacts(names);
    ParsedIsNamed(parser, scan.artifacts);
    assert Elements(Filenames(scan.artifacts)) == names;
    ClosedByNames(scan.artifacts, version, parser);
  }

  lemma AcceptableIsGood(h: History, t: Instant, version: string, parser: FilenameParser, noFollow: bool)
    requires Environment(h)
    ensures noFollow && GoodDirectory(h(t), version, parser)
            <==> && Acceptable(h(t), DefaultLimits(), parser, noFollow)
                 && ReleaseSet(EntriesOf(h(t), h(t).candidate.value).Keys, version, parser)
  {
    hide Environment, SortedNames, AcceptableEntry, SmallFile, ReleaseSet, EntriesOf;
    if NamesDirectory(h(t)) && ReleaseSet(EntriesOf(h(t), h(t).candidate.value).Keys, version, parser) {
      var dir := h(t).candidate.value;
      var names := EntriesOf(h(t), dir).Keys;
      TenFiles(names, version, parser);
      EntriesAcceptable(h, t, dir, names, version, parser);
      SameTotals(h, t, dir, names);
    }
  }

  lemma SameTotals(h: History, t: Instant, dir: NodeId, names: set<string>)
    requires Environment(h)
    ensures (forall name | name in names :: SmallFile(h(t), dir, name, 134217728))
            ==> TotalSize(h(t), dir, SortedNames(names)) == TotalBytes(h(t), dir, SortedNames(names))
  {
    hide Environment, SortedNames, SmallFile;
    if forall name | name in names :: SmallFile(h(t), dir, name, 134217728) {
      var sorted := SortedNames(names);
      SortedNamesFacts(names);
      forall k | 0 <= k < |sorted| ensures SmallFile(h(t), dir, sorted[k], 134217728) {
        assert sorted[k] in sorted;
      }
      SameTotal(h, t, dir, sorted, 134217728);
    }
  }

  lemma EntriesAcceptable(h: History, t: Instant, dir: NodeId, names: set<string>, version: string,
                          parser: FilenameParser)
    requires Environment(h) && ReleaseSet(names, version, parser)
    ensures var sorted := SortedNames(names);
            (forall k | 0 <= k < |sorted| :: AcceptableEntry(h(t), dir, sorted[k], DefaultLimits(), parser))
            <==> forall name | name in names :: SmallFile(h(t), dir, name, 134217728)
  {
    hide Environment, SortedNames, SmallFile, EntriesOf;
    SortedNamesFacts(names);
    var sorted := SortedNames(names);
    forall name | name in names
      ensures AcceptableEntry(h(t), dir, name, DefaultLimits(), parser) <==> SmallFile(h(t), dir, name, 134217728)
    {
      SmallFileIsRegular(h, t, dir, name, 134217728);
      SaidIsParsed(parser, name);
    }
    hide ReleaseSet, AcceptableEntry;
    if forall k | 0 <= k < |sorted| :: AcceptableEntry(h(t), dir, sorted[k], DefaultLimits(), parser) {
      forall name | name in names ensures SmallFile(h(t), dir, name, 134217728) {
        assert name in sorted;
      }
    }
    forall k | 0 <= k < |sorted| ensures sorted[k] in names {
      assert sorted[k] in sorted;
    }
  }

  /** What the names say, as artifacts. */
  ghost function Labelled(parser: FilenameParser, names: seq<string>): (r: seq<Artifact>)
    requires forall k | 0 <= k < |names| :: parser.Parse(names[k]).Some?
    ensures |r| == |names| && AllNamedBy(parser, r) && Filenames(r) == names
  {
    if names == [] then []
    else
      var rest := Labelled(parser, names[1..]);
      var said := parser.Parse(names[0]).value;
      [Artifact(names[0], said.package, said.version, ArtifactType(names[0]), "", 0, [])] + rest
  }

  /** A release set has ten names. */
  lemma TenFiles(names: set<string>, version: string, parser: FilenameParser)
    requires ReleaseSet(names, version, parser)
    ensures |SortedNames(names)| == |names| == 10
  {
    hide *;
    SortedNamesFacts(names);
    var sorted := SortedNames(names);
    forall k | 0 <= k < |sorted| ensures parser.Parse(sorted[k]).Some? {
      assert sorted[k] in sorted;
      ReleaseNameParses(names, version, parser, sorted[k]);
    }
    var artifacts := Labelled(parser, sorted);
    assert Elements(sorted) == names by {
      ElementsAre(sorted, names);
    }
    ClosedByNames(artifacts, version, parser);
    ClosedSetCounts(artifacts, version);
  }

  lemma ElementsAre(s: seq<string>, names: set<string>)
    requires forall name :: name in s <==> name in names
    ensures Elements(s) == names
  {
  }

  lemma ReleaseNameParses(names: set<string>, version: string, parser: FilenameParser, name: string)
    requires ReleaseSet(names, version, parser) && name in names
    ensures parser.Parse(name).Some?
  {
    SaidIsParsed(parser, name);
  }

  lemma ReportBlocked(scan: Scan, version: string)
    requires scan.blockers != []
    ensures ReportOf(scan, version).blockers != []
  {
    hide InventoryValidation.Blockers;
  }
}
