/** The release command as a whole: inventory, network checks, final revalidation. */
module InventoryRelease {
  import opened Digests
  import opened FileSystem
  import opened SystemCalls
  import opened InventoryContract
  import opened InventoryScan
  import opened InventorySnapshot
  import opened InventoryRevalidation
  import InventoryClosedSet
  import InventoryGrouping

  datatype Arguments = Arguments(expectedVersion: string, timeoutSeconds: int, pollIntervalSeconds: int,
                                 inventoryOnly: bool)

  /** `_inventory_limits` */
  function DefaultLimits(): Limits {
    Limits(MAX_ENTRIES, MAX_FILE_BYTES, MAX_TOTAL_BYTES)
  }

  const MAX_ENTRIES: nat := 64
  const MAX_FILE_BYTES: nat := 128 * 1024 * 1024
  const MAX_TOTAL_BYTES: nat := 512 * 1024 * 1024

  /** `_polling_blockers` finds nothing to object to. */
  predicate ValidPolling(args: Arguments) {
    0 <= args.timeoutSeconds <= 3600 && 1 <= args.pollIntervalSeconds <= 300
  }

  /** The check of one release against the package index: when it ran and what came of it. */
  datatype Check = Check(begun: Instant, ended: Instant, release: Release, passed: bool)

  /** The package index, with a record of the checks made against it. What a check asks, and how
      long it polls, is not modelled: it takes any time and passes or not. */
  class PackageIndex {
    ghost var checks: seq<Check>

    constructor ()
      ensures checks == []
    {
      checks := [];
    }

    /** The waiter for one release. */
    method WaitForRelease(host: Host, release: Release) returns (passed: bool)
      requires host.Valid()
      modifies this, host`now
      ensures host.Valid() && old(host.now) <= host.now
      ensures checks == old(checks) + [Check(old(host.now), host.now, release, passed)]
    {
      ghost var begun := host.now;
      host.Wait();
      passed := *;
      checks := checks + [Check(begun, host.now, release, passed)];
    }
  }

  ghost predicate ChecksOf(checks: seq<Check>, releases: seq<Release>, lo: Instant, hi: Instant) {
    && |checks| == |releases|
    && forall k | 0 <= k < |checks| ::
         checks[k].release == releases[k] && lo <= checks[k].begun <= checks[k].ended <= hi
  }

  ghost predicate AllPassed(checks: seq<Check>) {
    forall k | 0 <= k < |checks| :: checks[k].passed
  }

  /** `verify_distribution_releases`: every release is checked, in order, also after one fails. */
  method VerifyDistributionReleases(host: Host, index: PackageIndex, releases: seq<Release>)
    returns (reports: seq<bool>)
    requires host.Valid()
    modifies index, host`now
    ensures host.Valid() && old(host.now) <= host.now && old(index.checks) <= index.checks
    ensures ChecksOf(index.checks[|old(index.checks)|..], releases, old(host.now), host.now)
    ensures |reports| == |releases|
    ensures (forall k | 0 <= k < |reports| :: reports[k]) <==> AllPassed(index.checks[|old(index.checks)|..])
  {
    hide Environment;
    reports := [];
    ghost var before, made: seq<Check> := index.checks, [];
    for i := 0 to |releases|
      invariant host.Valid() && old(host.now) <= host.now
      invariant index.checks == before + made && ChecksOf(made, releases[..i], old(host.now), host.now)
      invariant |reports| == i && forall k | 0 <= k < i :: reports[k] == made[k].passed
    {
      ghost var begun := host.now;
      var passed := index.WaitForRelease(host, releases[i]);
      reports := reports + [passed];
      made := made + [Check(begun, host.now, releases[i], passed)];
    }
    assert releases[..|releases|] == releases;
    assert index.checks[|before|..] == made;
  }

  /** The exit code for a directory that holds still, with no call failing, by whether the network
      checks pass. */
  ghost function StillExitCode(s: State, args: Arguments, parser: FilenameParser, hash: HashFunction, noFollow: bool,
                               passed: bool): nat {
    var report := ReportOf(ScanOf(s, DefaultLimits(), parser, hash, noFollow), args.expectedVersion);
    if report.blockers != [] || !ValidPolling(args) then 2
    else if !args.inventoryOnly && !passed then 1
    else 0
  }

  /** At every instant from `began` to `ended` the directory held exactly the closed set of the
      expected version, and these were its releases. */
  ghost predicate HeldReleases(h: History, lo: Instant, began: Instant, ended: Instant, hi: Instant,
                               releases: seq<Release>, expectedVersion: string, hash: HashFunction) {
    exists t1: Instant, t2: Instant, dir, scan |
      lo <= t1 <= began && began <= ended <= t2 <= hi && TrueThroughout(h, t1, t2, dir, scan, hash) ::
      && InventoryClosedSet.ClosedSet(scan.artifacts, expectedVersion)
      && releases == scan.releases == InventoryGrouping.Grouped(scan.artifacts)
  }

  /** An accepted handoff covers everything that happened between the two evaluations. */
  lemma Covered(h: History, lo: Instant, began: Instant, ended: Instant, hi: Instant, initial: Report, current: Report,
                limits: Limits, parser: FilenameParser, hash: HashFunction)
    requires Environment(h) && lo <= began <= ended <= hi
    requires Evaluated(h, lo, began, initial, limits, parser, hash)
        && Evaluated(h, ended, hi, current, limits, parser, hash)
    requires current.expectedVersion == initial.expectedVersion && Handoff(initial, current).blockers == []
    ensures HeldReleases(h, lo, began, ended, hi, initial.releases, initial.expectedVersion, hash)
  {
    hide Environment, TrueThroughout, InventoryClosedSet.ClosedSet, Handoff, InventoryGrouping.Grouped;
    var t1, t2, dir, scan := StableWindow(h, lo, began, ended, hi, initial, current, limits, limits, parser, hash);
  }

  /** The directory held exactly one closed set at every instant of every recorded check, and the
      checks are those of its releases, one each in order, and all passed; or there were none, for
      the inventory alone. */
  ghost predicate CheckedWhileHeld(h: History, lo: Instant, hi: Instant, checks: seq<Check>, args: Arguments,
                                   hash: HashFunction) {
    exists t1: Instant, t2: Instant, releases | HeldReleases(h, lo, t1, t2, hi, releases, args.expectedVersion, hash) ::
      if args.inventoryOnly then checks == [] else ChecksOf(checks, releases, t1, t2) && AllPassed(checks)
  }

  /** `main`, from the first evaluation to the exit code. */
  method Decide(host: Host, index: PackageIndex, args: Arguments, parser: FilenameParser, hash: HashFunction,
                noFollow: bool)
    returns (code: nat)
    requires host.Valid()
    modifies index, host`now, host`faults, host`descriptors, host`fstats, host`nextFd
    ensures host.Valid() && host.Later() && host.descriptors == old(host.descriptors)
    ensures old(index.checks) <= index.checks && code <= 2
    ensures var made := index.checks[|old(index.checks)|..];
            && (code == 0 ==> CheckedWhileHeld(host.history, old(host.now), host.now, made, args, hash))
            && (code == 1 ==> !args.inventoryOnly && !AllPassed(made))
            && (Quiet(host.history, old(host.now), host.now) && host.faults == old(host.faults) ==>
                  code == StillExitCode(host.history(host.now), args, parser, hash, noFollow, AllPassed(made)))
  {
    hide Environment, Evaluated, ReportOf, ScanOf, HeldReleases, Handoff, Quiet, ChecksOf, AllPassed;
    ghost var h, start, before := host.history, host.now, index.checks;
    var inventory := EvaluateCandidateInventory(host, args.expectedVersion, DefaultLimits(), parser, hash, noFollow);
    ghost var began := host.now;
    QuietParts(h, start, began, host.now);
    assert index.checks[|before|..] == [];
    if inventory.blockers != [] || !ValidPolling(args) {
      return 2;
    }
    if !args.inventoryOnly {
      var reports := VerifyDistributionReleases(host, index, inventory.releases);
      QuietParts(h, start, began, host.now);
      if exists k | 0 <= k < |reports| :: !reports[k] {
        return 1;
      }
    }
    ghost var ended := host.now;
    var final, current := RevalidateCandidateInventory(host, inventory, DefaultLimits(), parser, hash, noFollow);
    QuietParts(h, start, began, host.now);
    QuietParts(h, start, ended, host.now);
    if Quiet(h, start, host.now) && host.faults == old(host.faults) {
      SameReportAccepted(inventory, current);
    }
    if final.blockers != [] {
      return 2;
    }
    Covered(h, start, began, ended, host.now, inventory, current, DefaultLimits(), parser, hash);
    code := 0;
  }

  lemma SameReportAccepted(initial: Report, current: Report)
    ensures initial == current && current.blockers == [] ==> Handoff(initial, current).blockers == []
  {
    SelfUnchanged(current);
  }
}
