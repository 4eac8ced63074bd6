/** The system calls the inventory makes, each against the state of its own instant. Every
    call may be delayed (outside changes happen meanwhile) and may fail with an OSError of
    its own; `faults` counts those failures, not the ordinary "no such file" ones. */
module SystemCalls {
  import opened Bytes
  import opened Ordering
  import opened FileSystem

  type Fd = nat

  datatype Descriptor = Descriptor(node: NodeId, offset: nat)

  /** What one fstat saw. */
  datatype Fstat = Fstat(at: Instant, node: NodeId, stat: Stat)

  /** The path names a directory itself, not a link to one. */
  predicate NamesDirectory(s: State) {
    s.candidate.Some? && s.candidate.value in s.nodes && s.nodes[s.candidate.value].content.DirEntries?
  }

  /** os.open(name, O_RDONLY | O_NOFOLLOW | O_NONBLOCK, dir_fd=dir) finds something to open. */
  predicate Opens(s: State, dir: NodeId, name: string) {
    Resolves(s, dir, name) && !s.nodes[Resolve(s, dir, name)].content.Symlink?
  }

  /** A listing of a directory holding still: no entry twice, and all of them unless it failed. */
  ghost predicate Lists(names: seq<string>, failed: bool, entries: map<string, NodeId>) {
    && NoDuplicates(names)
    && (forall name | name in names :: name in entries)
    && (!failed ==> forall name | name in entries :: name in names)
  }

  class Host {
    const history: History
    var now: Instant
    var descriptors: map<Fd, Descriptor>
    var nextFd: Fd
    ghost var faults: nat

    /** Every fstat that succeeded, in order. */
    ghost var fstats: seq<Fstat>

    ghost predicate Valid()
      reads this
    {
      && Environment(history)
      && (forall fd | fd in descriptors :: fd < nextFd && descriptors[fd].node in history(now).nodes)
    }

    /** What every call keeps: time does not run backwards and failures are not forgotten. */
    twostate predicate Later()
      reads this
    {
      old(now) <= now && old(faults) <= faults && old(nextFd) <= nextFd
    }

    constructor (history: History)
      requires Environment(history)
      ensures Valid() && this.history == history && descriptors == map[]
    {
      this.history := history;
      now, nextFd, descriptors, faults, fstats := 0, 0, map[], 0, [];
    }

    /** Other processes run for a while. */
    method Wait()
      requires Valid()
      modifies this`now
      ensures Valid() && old(now) <= now
    {
      hide Environment;
      var delay: int := *;
      var gap := if delay < 0 then 0 else delay;
      forall fd | fd in descriptors ensures descriptors[fd].node in history(now + gap).nodes {
        NodesPersist(history, now, now + gap, descriptors[fd].node);
      }
      now := now + gap;
    }

    /** Decides whether the call at hand fails with an OSError. */
    method Faulty() returns (failed: bool)
      requires Valid()
      modifies this`faults
      ensures Valid() && failed == (faults != old(faults)) && old(faults) <= faults
    {
      failed := *;
      if failed {
        faults := faults + 1;
      }
    }

    /** os.lstat(dist_dir), also os.stat(dist_dir, follow_symlinks=False) */
    method PathMetadata() returns (r: Option<Stat>)
      requires Valid()
      modifies this`now, this`faults
      ensures Valid() && Later()
      ensures faults == old(faults) ==> r == PathStat(history(now))
      ensures faults != old(faults) ==> r.None?
    {
      Wait();
      var failed := Faulty();
      r := if failed then None else PathStat(history(now));
    }

    /** os.open(dist_dir, O_RDONLY | O_NOFOLLOW | O_DIRECTORY) */
    method OpenDirectory() returns (r: Option<Fd>)
      requires Valid()
      modifies this`now, this`faults, this`descriptors, this`nextFd
      ensures Valid() && Later()
      ensures r.None? ==> descriptors == old(descriptors)
      ensures r.Some? ==>
                && r.value !in old(descriptors)
                && NamesDirectory(history(now))
                && descriptors == old(descriptors)[r.value := Descriptor(history(now).candidate.value, 0)]
                && faults == old(faults)
      ensures r.None? && faults == old(faults) ==> !NamesDirectory(history(now))
    {
      Wait();
      var failed := Faulty();
      if failed || !NamesDirectory(history(now)) {
        return None;
      }
      r := Some(nextFd);
      descriptors := descriptors[nextFd := Descriptor(history(now).candidate.value, 0)];
      nextFd := nextFd + 1;
    }

    /** os.fstat(fd) */
    method DescriptorMetadata(fd: Fd) returns (r: Option<Stat>)
      requires Valid() && fd in descriptors
      modifies this`now, this`faults, this`fstats
      ensures Valid() && Later()
      ensures faults == old(faults) <==> r.Some?
      ensures r.Some? ==> r == Some(history(now).nodes[descriptors[fd].node].stat)
      ensures fstats == old(fstats) + if r.Some? then [Fstat(now, descriptors[fd].node, r.value)] else []
    {
      Wait();
      var failed := Faulty();
      r := None;
      if !failed {
        r := Some(history(now).nodes[descriptors[fd].node].stat);
        fstats := fstats + [Fstat(now, descriptors[fd].node, r.value)];
      }
    }

    /** os.stat(name, dir_fd=root, follow_symlinks=False) */
    method EntryStat(root: Fd, name: string) returns (r: Option<Stat>)
      requires Valid() && root in descriptors
      modifies this`now, this`faults
      ensures Valid() && Later()
      ensures faults == old(faults) ==> r == LookupStat(history(now), descriptors[root].node, name)
      ensures faults != old(faults) ==> r.None?
    {
      Wait();
      var failed := Faulty();
      r := if failed then None else LookupStat(history(now), descriptors[root].node, name);
    }

    /** os.open(name, O_RDONLY | O_NOFOLLOW | O_NONBLOCK, dir_fd=root) */
    method OpenEntry(root: Fd, name: string) returns (r: Option<Fd>)
      requires Valid() && root in descriptors
      modifies this`now, this`faults, this`descriptors, this`nextFd
      ensures Valid() && Later()
      ensures r.None? ==> descriptors == old(descriptors)
      ensures r.Some? ==>
                && r.value !in old(descriptors)
                && Opens(history(now), old(descriptors)[root].node, name)
                && descriptors == old(descriptors)[r.value :=
                     Descriptor(Resolve(history(now), old(descriptors)[root].node, name), 0)]
                && faults == old(faults)
      ensures r.None? && faults == old(faults) ==> !Opens(history(now), descriptors[root].node, name)
    {
      Wait();
      var failed := Faulty();
      if failed || !Opens(history(now), descriptors[root].node, name) {
        return None;
      }
      r := Some(nextFd);
      descriptors := descriptors[nextFd := Descriptor(Resolve(history(now), descriptors[root].node, name), 0)];
      nextFd := nextFd + 1;
    }

    /** os.close(fd) */
    method Close(fd: Fd)
      requires Valid() && fd in descriptors
      modifies this`descriptors
      ensures Valid() && descriptors == old(descriptors) - {fd}
    {
      descriptors := descriptors - {fd};
    }

    /** os.read(fd, want). A read may be short. It delivers the file's bytes in order if the
        file holds still meanwhile; a file that is being written may yield anything. */
    method Read(fd: Fd, want: nat) returns (r: Option<seq<Byte>>)
      requires Valid() && fd in descriptors && want > 0
      modifies this`now, this`faults, this`descriptors
      ensures Valid() && Later()
      ensures r.None? ==> descriptors == old(descriptors)
      ensures r.Some? ==>
                var d := old(descriptors)[fd];
                && |r.value| <= want
                && descriptors == old(descriptors)[fd := Descriptor(d.node, d.offset + |r.value|)]
                && faults == old(faults)
      ensures r.Some? && Frozen(history, old(now), now, old(descriptors)[fd].node) ==>
                var d := old(descriptors)[fd];
                var bytes := BytesOf(history(now), d.node);
                && (r.value == [] <==> |bytes| <= d.offset)
                && (d.offset <= |bytes| ==> d.offset + |r.value| <= |bytes|
                                            && r.value == bytes[d.offset..d.offset + |r.value|])
      ensures r.None? && faults == old(faults) ==> !history(now).nodes[descriptors[fd].node].content.FileBytes?
    {
      hide Environment;
      Wait();
      var failed := Faulty();
      var d := descriptors[fd];
      if failed || !history(now).nodes[d.node].content.FileBytes? {
        return None;
      }
      var bytes := history(now).nodes[d.node].content.bytes;
      var left := if d.offset < |bytes| then |bytes| - d.offset else 0;
      var most := if want < left then want else left;
      var got: int := *;
      if got <= 0 || most < got {
        got := most;
      }
      var chunk := if left == 0 then [] else bytes[d.offset..d.offset + got];
      descriptors := descriptors[fd := Descriptor(d.node, d.offset + |chunk|)];
      r := Some(chunk);
    }

    /** Iterating os.scandir(fd): the names in the order they come, and whether the listing
        ended in an OSError. A directory that holds still is listed once per entry, in any
        order; the listing of one that changes meanwhile may miss names or contain stale ones. */
    method ListDirectory(fd: Fd) returns (names: seq<string>, failed: bool)
      requires Valid() && fd in descriptors
      modifies this`now, this`faults
      ensures Valid() && Later()
      ensures failed ==> faults != old(faults)
      ensures Frozen(history, old(now), now, descriptors[fd].node) ==>
                Lists(names, failed, EntriesOf(history(now), descriptors[fd].node))
    {
      hide Environment;
      var dir := descriptors[fd].node;
      ghost var held := EntriesOf(history(now), dir);
      var steps: int := *;
      names, failed := [], false;
      while true
        invariant Valid() && old(now) <= now && faults == old(faults) && !failed
        invariant dir == descriptors[fd].node
        invariant Frozen(history, old(now), now, dir) ==> Lists(names, true, held)
        decreases steps
      {
        Wait();
        var present := EntriesOf(history(now), dir);
        var unseen := present.Keys - Elements(names);
        assert Frozen(history, old(now), now, dir) ==> present == held;
        if unseen == {} {
          forall name | name in present ensures name in names {
            assert name in present.Keys;
            assert name !in unseen;
          }
          return;
        }
        if steps <= 0 {
          failed, faults := true, faults + 1;
          return;
        }
        var name :| name in unseen;
        assert name !in names;
        names, steps := names + [name], steps - 1;
      }
    }
  }
}
