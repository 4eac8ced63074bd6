/** Hashing one directory entry in chunks, with metadata checks around the read. */
module InventoryHash {
  import opened Bytes
  import opened Ordering
  import opened FileSystem
  import opened SystemCalls
  import opened InventoryContract
  import opened Digests

  const HASH_CHUNK_BYTES: nat := 1024 * 1024

  /** `_CandidateEntry` */
  datatype CandidateEntry = CandidateEntry(name: string, parsed: Parsed, metadata: Stat)

  /** The directory showed the entry with its metadata at some instant from lo to hi. */
  ghost predicate Observed(h: History, lo: Instant, hi: Instant, dir: NodeId, e: CandidateEntry) {
    exists t: Instant | lo <= t <= hi :: LookupStat(h(t), dir, e.name) == Some(e.metadata)
  }

  /** At some instant from lo to hi a file with this metadata held bytes of this digest. */
  ghost predicate HashedAs(h: History, lo: Instant, hi: Instant, metadata: Stat, digest: string, hash: HashFunction) {
    exists t: Instant, n | lo <= t <= hi && n in h(t).nodes ::
      && h(t).nodes[n].stat == metadata
      && h(t).nodes[n].content.FileBytes?
      && |h(t).nodes[n].content.bytes| == metadata.size
      && digest == hash(h(t).nodes[n].content.bytes)
  }

  /** In state s the file n has this metadata and holds bytes of this digest. */
  ghost predicate Holds(s: State, n: NodeId, metadata: Stat, digest: string, hash: HashFunction) {
    && n in s.nodes
    && s.nodes[n].stat == metadata
    && s.nodes[n].content.FileBytes?
    && |BytesOf(s, n)| == metadata.size
    && digest == hash(BytesOf(s, n))
  }

  /** Whatever showed this metadata at any instant up to now is the object n, and from that instant
      until now it did not change. */
  ghost predicate UnchangedSinceSeen(h: History, now: Instant, n: NodeId, metadata: Stat) {
    forall t: Instant, m | t <= now && m in h(t).nodes && h(t).nodes[m].stat == metadata ::
      m == n && Frozen(h, t, now, n)
  }

  lemma SeenMeansUnchanged(h: History, now: Instant, n: NodeId, metadata: Stat)
    requires Environment(h) && n in h(now).nodes && h(now).nodes[n].stat == metadata
    ensures UnchangedSinceSeen(h, now, n, metadata)
  {
    hide Environment;
    forall t: Instant, m | t <= now && m in h(t).nodes && h(t).nodes[m].stat == metadata
      ensures m == n && Frozen(h, t, now, n)
    {
      SameMetadataMeansFrozen(h, t, now, m, n);
    }
  }

  /** Some fstats, all of the file n within [lo, hi], and all showing this metadata. */
  ghost predicate FstatsShow(h: History, fstats: seq<Fstat>, lo: Instant, hi: Instant, n: NodeId, metadata: Stat) {
    && fstats != []
    && forall k | 0 <= k < |fstats| ::
         && lo <= fstats[k].at <= hi && fstats[k].node == n && fstats[k].stat == metadata
         && n in h(fstats[k].at).nodes && h(fstats[k].at).nodes[n].stat == metadata
  }

  /** The entry's name shows the entry's metadata at every instant from lo to hi. */
  ghost predicate EntryStill(h: History, lo: Instant, hi: Instant, dir: NodeId, e: CandidateEntry) {
    forall t: Instant | lo <= t <= hi :: LookupStat(h(t), dir, e.name) == Some(e.metadata)
  }

  /** The digest that a directory holding still gives. */
  function HashIn(s: State, dir: NodeId, e: CandidateEntry, hash: HashFunction): Option<string> {
    if LookupStat(s, dir, e.name) == Some(e.metadata) && IsRegular(e.metadata.mode)
    then Some(hash(BytesOf(s, Resolve(s, dir, e.name))))
    else None
  }

  lemma FrozenSplit(h: History, lo: Instant, mid: Instant, hi: Instant, n: NodeId)
    requires lo <= mid <= hi && Frozen(h, lo, hi, n)
    ensures Frozen(h, lo, mid, n) && Frozen(h, mid, hi, n)
    ensures n in h(hi).nodes && h(hi).nodes[n] == h(lo).nodes[n] && BytesOf(h(hi), n) == BytesOf(h(lo), n)
  {
  }

  lemma QuietFreezes(h: History, lo: Instant, hi: Instant, n: NodeId)
    requires Quiet(h, lo, hi) && lo <= hi && n in h(hi).nodes
    ensures Frozen(h, lo, hi, n)
  {
    assert h(hi) == h(lo);
  }

  lemma RegularIsFile(h: History, t: Instant, n: NodeId)
    requires Environment(h) && n in h(t).nodes && IsRegular(h(t).nodes[n].stat.mode)
    ensures h(t).nodes[n].content.FileBytes? && |h(t).nodes[n].content.bytes| == h(t).nodes[n].stat.size
  {
    assert WellFormed(h(t));
    assert WellFormedNode(h(t).nodes[n]);
  }

  lemma SliceGrows(bytes: seq<Byte>, k: nat, chunk: seq<Byte>)
    requires k + |chunk| <= |bytes| && chunk == bytes[k..k + |chunk|]
    ensures bytes[..k] + chunk == bytes[..k + |chunk|]
  {
  }

  lemma Moved(table: map<Fd, Descriptor>, fd: Fd, d: Descriptor, e: Descriptor)
    ensures table[fd := d][fd := e] == table[fd := e]
    ensures table[fd := d] - {fd} == table - {fd}
  {
  }

  /** The read loop: every byte up to the size the metadata announced, in order. */
  method ReadAll(host: Host, fd: Fd, size: nat, digest: Digest, ghost since: Instant) returns (complete: bool)
    requires host.Valid() && fd in host.descriptors && host.descriptors[fd].offset == 0
    requires digest.absorbed == []
    requires since <= host.now
    requires var n := host.descriptors[fd].node;
             n in host.history(since).nodes && host.history(since).nodes[n].content.FileBytes?
             && |host.history(since).nodes[n].content.bytes| == size
    modifies host`now, host`faults, host`descriptors, digest
    ensures host.Valid() && host.Later()
    ensures complete ==>
              && host.descriptors == old(host.descriptors)[fd := Descriptor(old(host.descriptors)[fd].node, size)]
              && (Frozen(host.history, since, host.now, old(host.descriptors)[fd].node) ==>
                    digest.absorbed == BytesOf(host.history(since), old(host.descriptors)[fd].node))
    ensures fd in host.descriptors && host.descriptors[fd].node == old(host.descriptors)[fd].node
    ensures host.descriptors - {fd} == old(host.descriptors) - {fd}
    ensures !complete && host.faults == old(host.faults) ==>
              !Frozen(host.history, since, host.now, old(host.descriptors)[fd].node)
  {
    hide Environment, Frozen;
    ghost var n, table := host.descriptors[fd].node, host.descriptors;
    ghost var bytes := BytesOf(host.history(since), n);
    var remaining := size;
    while remaining != 0
      invariant host.Valid() && host.Later()
      invariant 0 <= remaining <= size
      invariant host.descriptors == table[fd := Descriptor(n, size - remaining)]
      invariant Frozen(host.history, since, host.now, n) ==> digest.absorbed == bytes[..size - remaining]
      decreases remaining
    {
      ghost var before := host.now;
      var chunk := host.Read(fd, if HASH_CHUNK_BYTES < remaining then HASH_CHUNK_BYTES else remaining);
      if Frozen(host.history, since, host.now, n) {
        FrozenSplit(host.history, since, before, host.now, n);
      }
      if chunk.None? || chunk.value == [] {
        return false;
      }
      if Frozen(host.history, since, host.now, n) {
        SliceGrows(bytes, size - remaining, chunk.value);
      }
      Moved(table, fd, Descriptor(n, size - remaining), Descriptor(n, size - remaining + |chunk.value|));
      digest.Update(chunk.value);
      remaining := remaining - |chunk.value|;
    }
    assert Frozen(host.history, since, host.now, n) ==> bytes[..size] == bytes;
    complete := true;
  }

  /** `_hash_entry` from the first fstat of the open file to the last. */
  method HashDescriptor(host: Host, fd: Fd, metadata: Stat, hash: HashFunction) returns (digest: Option<string>)
    requires host.Valid() && fd in host.descriptors && host.descriptors[fd].offset == 0
    modifies host`now, host`faults, host`descriptors, host`fstats
    ensures host.Valid() && host.Later()
    ensures fd in host.descriptors && host.descriptors - {fd} == old(host.descriptors) - {fd}
    ensures digest.Some? ==>
              && IsRegular(metadata.mode)
              && old(host.fstats) <= host.fstats
              && FstatsShow(host.history, host.fstats[|old(host.fstats)|..], old(host.now), host.now,
                            old(host.descriptors)[fd].node, metadata)
              && Holds(host.history(host.now), old(host.descriptors)[fd].node, metadata, digest.value, hash)
              && UnchangedSinceSeen(host.history, host.now, old(host.descriptors)[fd].node, metadata)
    ensures Frozen(host.history, old(host.now), host.now, old(host.descriptors)[fd].node)
            && host.faults == old(host.faults)
            && host.history(host.now).nodes[old(host.descriptors)[fd].node].stat == metadata
            && IsRegular(metadata.mode) ==>
              digest == Some(hash(BytesOf(host.history(host.now), old(host.descriptors)[fd].node)))
  {
    hide Environment;
    ghost var begun := host.now;
    ghost var n := host.descriptors[fd].node;
    var first := host.DescriptorMetadata(fd);
    if first.None? || !IsRegular(first.value.mode) || MetadataIdentity(first.value) != MetadataIdentity(metadata) {
      return None;
    }
    IdentityIsExact(first.value, metadata);
    ghost var start := host.now;
    RegularIsFile(host.history, start, n);
    var sha := new Digest(hash);
    var complete := ReadAll(host, fd, metadata.size, sha, start);
    if !complete {
      FrozenTail(host.history, begun, start, host.now, n);
      return None;
    }
    var same := ConfirmEnd(host, fd, metadata, start);
    if !same {
      FrozenTail(host.history, begun, start, host.now, n);
      return None;
    }
    assert sha.absorbed == BytesOf(host.history(start), n);
    digest := Some(sha.HexDigest());
    FrozenSplit(host.history, start, start, host.now, n);
    SeenMeansUnchanged(host.history, host.now, n, metadata);
    FirstAndLastShow(host.history, start, host.now, n, metadata);
  }

  lemma FirstAndLastShow(h: History, start: Instant, hi: Instant, n: NodeId, metadata: Stat)
    requires Frozen(h, start, hi, n) && start <= hi && h(start).nodes[n].stat == metadata
    ensures forall at: Instant | start <= at <= hi :: n in h(at).nodes && h(at).nodes[n].stat == metadata
  {
  }

  /** Nothing is left to read and the open file still has its metadata. */
  method ConfirmEnd(host: Host, fd: Fd, metadata: Stat, ghost start: Instant) returns (same: bool)
    requires host.Valid() && fd in host.descriptors && start <= host.now
    requires host.descriptors[fd].offset == metadata.size
    requires var n := host.descriptors[fd].node;
             n in host.history(start).nodes && host.history(start).nodes[n].stat == metadata
             && host.history(start).nodes[n].content.FileBytes?
             && |host.history(start).nodes[n].content.bytes| == metadata.size
    modifies host`now, host`faults, host`descriptors, host`fstats
    ensures host.Valid() && host.Later()
    ensures fd in host.descriptors && host.descriptors - {fd} == old(host.descriptors) - {fd}
    ensures same ==>
              && Frozen(host.history, start, old(host.now), old(host.descriptors)[fd].node)
              && Frozen(host.history, start, host.now, old(host.descriptors)[fd].node)
    ensures same ==> exists at: Instant ::
              && old(host.now) <= at <= host.now
              && host.fstats == old(host.fstats) + [Fstat(at, old(host.descriptors)[fd].node, metadata)]
    ensures !same && host.faults == old(host.faults) ==>
              !Frozen(host.history, start, host.now, old(host.descriptors)[fd].node)
  {
    hide Environment;
    ghost var n, before := host.descriptors[fd].node, host.now;
    var extra := host.Read(fd, 1);
    if Frozen(host.history, start, host.now, n) {
      FrozenSplit(host.history, start, before, host.now, n);
    }
    if extra.None? || extra.value != [] {
      return false;
    }
    var closing := host.DescriptorMetadata(fd);
    if closing.None? || MetadataIdentity(closing.value) != MetadataIdentity(metadata) {
      return false;
    }
    IdentityIsExact(closing.value, metadata);
    SameMetadataMeansFrozen(host.history, start, host.now, n, n);
    FrozenSplit(host.history, start, before, host.now, n);
    same := true;
  }

  /** `_hash_entry` between opening and closing the file. */
  method HashOpened(host: Host, root: Fd, fd: Fd, entry: CandidateEntry, hash: HashFunction)
    returns (digest: Option<string>)
    requires host.Valid() && root in host.descriptors && fd in host.descriptors && root != fd
    requires host.descriptors[fd].offset == 0
    modifies host`now, host`faults, host`descriptors, host`fstats
    ensures host.Valid() && host.Later()
    ensures fd in host.descriptors && host.descriptors - {fd} == old(host.descriptors) - {fd}
    ensures digest.Some? ==>
              && IsRegular(entry.metadata.mode)
              && LookupStat(host.history(host.now), old(host.descriptors)[root].node, entry.name)
                   == Some(entry.metadata)
              && Resolve(host.history(host.now), old(host.descriptors)[root].node, entry.name)
                   == old(host.descriptors)[fd].node
              && old(host.fstats) <= host.fstats
              && FstatsShow(host.history, host.fstats[|old(host.fstats)|..], old(host.now), host.now,
                            old(host.descriptors)[fd].node, entry.metadata)
              && Holds(host.history(host.now), old(host.descriptors)[fd].node, entry.metadata, digest.value, hash)
              && UnchangedSinceSeen(host.history, host.now, old(host.descriptors)[fd].node, entry.metadata)
    ensures Frozen(host.history, old(host.now), host.now, old(host.descriptors)[fd].node)
            && host.faults == old(host.faults)
            && LookupStat(host.history(host.now), old(host.descriptors)[root].node, entry.name) == Some(entry.metadata)
            && Resolve(host.history(host.now), old(host.descriptors)[root].node, entry.name)
                 == old(host.descriptors)[fd].node
            && IsRegular(entry.metadata.mode) ==>
              digest == Some(hash(BytesOf(host.history(host.now), old(host.descriptors)[fd].node)))
  {
    hide Environment, Holds, UnchangedSinceSeen, Frozen;
    ghost var start, n := host.now, host.descriptors[fd].node;
    var dir := host.descriptors[root];
    digest := HashDescriptor(host, fd, entry.metadata, hash);
    if digest.None? {
      return;
    }
    assert host.descriptors[root] == dir by {
      assert root in host.descriptors - {fd};
    }
    ghost var hashed := host.now;
    var current := host.EntryStat(root, entry.name);
    if Frozen(host.history, start, host.now, n) {
      FrozenSplit(host.history, start, hashed, host.now, n);
    }
    hide BytesOf, MetadataIdentity;
    if current.None? || MetadataIdentity(current.value) != MetadataIdentity(entry.metadata) {
      if current.Some? {
        IdentityIsExact(current.value, entry.metadata);
      }
      return None;
    }
    IdentityIsExact(current.value, entry.metadata);
    StillUnderName(host.history, hashed, host.now, n, Resolve(host.history(host.now), dir.node, entry.name),
                   entry.metadata, digest.value, hash);
  }

  /** A name that shows the metadata of the hashed file names that very file, still unchanged. */
  lemma StillUnderName(h: History, hashed: Instant, now: Instant, n: NodeId, m: NodeId, metadata: Stat, digest: string,
                       hash: HashFunction)
    requires Environment(h) && hashed <= now && Holds(h(hashed), n, metadata, digest, hash)
    requires m in h(now).nodes && h(now).nodes[m].stat == metadata
    ensures n == m && Holds(h(now), n, metadata, digest, hash) && UnchangedSinceSeen(h, now, n, metadata)
  {
    SeenMeansUnchanged(h, now, m, metadata);
    hide Environment;
    FrozenSplit(h, hashed, hashed, now, n);
  }

  lemma QuietPrefix(h: History, lo: Instant, mid: Instant)
    ensures forall hi: Instant | mid <= hi && Quiet(h, lo, hi) :: Quiet(h, lo, mid)
  {
  }

  lemma FrozenTail(h: History, lo: Instant, start: Instant, hi: Instant, n: NodeId)
    requires lo <= start <= hi
    ensures Frozen(h, lo, hi, n) ==> Frozen(h, start, hi, n)
  {
  }

  lemma RegularOpens(h: History, t: Instant, dir: NodeId, name: string)
    requires Environment(h)
    ensures var found := LookupStat(h(t), dir, name);
            found.Some? && IsRegular(found.value.mode) ==> Opens(h(t), dir, name)
  {
    var found := LookupStat(h(t), dir, name);
    if found.Some? && IsRegular(found.value.mode) {
      RegularIsFile(h, t, Resolve(h(t), dir, name));
    }
  }

  /** What a digest says of the moment at which it is returned, and of the time before: the name
      names the file that was hashed, and that file has not changed since it, or anything else,
      first showed the entry's metadata. */
  ghost predicate HashedNow(h: History, now: Instant, dir: NodeId, e: CandidateEntry, digest: string,
                            hash: HashFunction) {
    && IsRegular(e.metadata.mode)
    && LookupStat(h(now), dir, e.name) == Some(e.metadata)
    && Holds(h(now), Resolve(h(now), dir, e.name), e.metadata, digest, hash)
    && UnchangedSinceSeen(h, now, Resolve(h(now), dir, e.name), e.metadata)
  }

  lemma HashedNowMeans(h: History, lo: Instant, now: Instant, dir: NodeId, e: CandidateEntry, digest: string,
                       hash: HashFunction)
    requires lo <= now && HashedNow(h, now, dir, e, digest, hash)
    ensures HashedAs(h, lo, now, e.metadata, digest, hash) && Observed(h, lo, now, dir, e)
  {
  }

  /** A digest means that the file did not change from any instant at which it showed the entry's
      metadata, be it seen by fstat, by the inspection or by nobody, until the return; and it is the
      digest of the bytes of all that time. */
  lemma DigestMeansUnchanged(h: History, now: Instant, dir: NodeId, e: CandidateEntry, digest: string,
                             hash: HashFunction, t: Instant, m: NodeId)
    requires t <= now && HashedNow(h, now, dir, e, digest, hash)
    requires m in h(t).nodes && h(t).nodes[m].stat == e.metadata
    ensures m == Resolve(h(now), dir, e.name)
    ensures Frozen(h, t, now, m)
    ensures forall u: Instant | t <= u <= now :: digest == hash(BytesOf(h(u), m))
  {
    assert Frozen(h, t, now, m);
    forall u: Instant | t <= u <= now ensures digest == hash(BytesOf(h(u), m)) {
      FrozenSplit(h, t, u, now, m);
    }
  }

  /** In particular since the first fstat of the call. */
  lemma UnchangedSinceFstat(h: History, lo: Instant, now: Instant, dir: NodeId, e: CandidateEntry, digest: string,
                            hash: HashFunction, fstats: seq<Fstat>)
    requires HashedNow(h, now, dir, e, digest, hash)
    requires FstatsShow(h, fstats, lo, now, Resolve(h(now), dir, e.name), e.metadata)
    ensures Frozen(h, fstats[0].at, now, Resolve(h(now), dir, e.name))
    ensures forall u: Instant | fstats[0].at <= u <= now :: digest == hash(BytesOf(h(u), Resolve(h(now), dir, e.name)))
  {
    DigestMeansUnchanged(h, now, dir, e, digest, hash, fstats[0].at, fstats[0].node);
  }

  /** And since the inspection that observed the entry. */
  lemma UnchangedSinceInspection(h: History, lo: Instant, inspected: Instant, now: Instant, dir: NodeId,
                                 e: CandidateEntry, digest: string, hash: HashFunction)
    requires inspected <= now && Observed(h, lo, inspected, dir, e) && HashedNow(h, now, dir, e, digest, hash)
    ensures Frozen(h, inspected, now, Resolve(h(now), dir, e.name))
  {
    var t: Instant :| lo <= t <= inspected && LookupStat(h(t), dir, e.name) == Some(e.metadata);
    DigestMeansUnchanged(h, now, dir, e, digest, hash, t, Resolve(h(t), dir, e.name));
    FrozenSplit(h, t, inspected, now, Resolve(h(now), dir, e.name));
  }

  /** So a file that differs, at any instant up to now, from what it was when it showed the entry's
      metadata has no digest. */
  lemma ChangeMeansNoDigest(h: History, now: Instant, dir: NodeId, e: CandidateEntry, hash: HashFunction, t: Instant,
                            u: Instant, n: NodeId)
    requires t <= u <= now && n in h(t).nodes && h(t).nodes[n].stat == e.metadata
    requires !(n in h(u).nodes && h(u).nodes[n] == h(t).nodes[n])
    ensures forall digest :: !HashedNow(h, now, dir, e, digest, hash)
  {
    forall digest ensures !HashedNow(h, now, dir, e, digest, hash) {
      if HashedNow(h, now, dir, e, digest, hash) {
        DigestMeansUnchanged(h, now, dir, e, digest, hash, t, n);
        FrozenSplit(h, t, u, now, n);
      }
    }
  }

  /** A name that shows one metadata all the time names one file that holds still. */
  lemma StillNames(h: History, lo: Instant, hi: Instant, dir: NodeId, e: CandidateEntry, t: Instant)
    requires Environment(h) && lo <= t <= hi && EntryStill(h, lo, hi, dir, e)
    ensures Resolve(h(t), dir, e.name) == Resolve(h(hi), dir, e.name)
    ensures Frozen(h, t, hi, Resolve(h(hi), dir, e.name))
  {
    hide Environment;
    SameMetadataMeansFrozen(h, t, hi, Resolve(h(t), dir, e.name), Resolve(h(hi), dir, e.name));
  }

  lemma QuietIsStill(h: History, lo: Instant, hi: Instant, dir: NodeId, e: CandidateEntry)
    requires lo <= hi && Quiet(h, lo, hi)
    ensures LookupStat(h(hi), dir, e.name) == Some(e.metadata) <==> EntryStill(h, lo, hi, dir, e)
  {
    assert h(hi) == h(lo);
  }

  /** `_hash_entry`: whatever happens, the descriptor it opens is closed again. A digest is given
      only if the file did not change from any instant on at which it showed the expected metadata,
      the first fstat included, and is certain to be given if the name showed the expected metadata
      of a regular file all the time and no call failed. */
  method HashEntry(host: Host, root: Fd, entry: CandidateEntry, hash: HashFunction) returns (digest: Option<string>)
    requires host.Valid() && root in host.descriptors
    modifies host`now, host`faults, host`descriptors, host`fstats, host`nextFd
    ensures host.Valid() && host.Later()
    ensures host.descriptors == old(host.descriptors)
    ensures digest.Some? ==>
              && HashedNow(host.history, host.now, host.descriptors[root].node, entry, digest.value, hash)
              && old(host.fstats) <= host.fstats
              && FstatsShow(host.history, host.fstats[|old(host.fstats)|..], old(host.now), host.now,
                            Resolve(host.history(host.now), host.descriptors[root].node, entry.name), entry.metadata)
    ensures EntryStill(host.history, old(host.now), host.now, host.descriptors[root].node, entry)
            && IsRegular(entry.metadata.mode) && host.faults == old(host.faults) ==>
              digest == HashIn(host.history(host.now), host.descriptors[root].node, entry, hash) && digest.Some?
    ensures Quiet(host.history, old(host.now), host.now) && host.faults == old(host.faults) ==>
              digest == HashIn(host.history(host.now), host.descriptors[root].node, entry, hash)
  {
    hide Environment, Holds, UnchangedSinceSeen, Frozen, Quiet, EntryStill;
    ghost var h, start, table, dir := host.history, host.now, host.descriptors, host.descriptors[root].node;
    var fd := host.OpenEntry(root, entry.name);
    ghost var entered := host.now;
    RegularOpens(h, entered, dir, entry.name);
    if fd.Some? {
      assert root in host.descriptors - {fd.value};
      digest := HashOpened(host, root, fd.value, entry, hash);
      host.Close(fd.value);
      assert host.descriptors == table;
    } else {
      digest := None;
    }
    if EntryStill(h, start, host.now, dir, entry) {
      StillShows(h, start, host.now, dir, entry, entered);
      StillNames(h, start, host.now, dir, entry, entered);
    }
    if Quiet(h, start, host.now) {
      QuietIsStill(h, start, host.now, dir, entry);
    }
  }

  lemma StillShows(h: History, lo: Instant, hi: Instant, dir: NodeId, e: CandidateEntry, t: Instant)
    requires lo <= t <= hi && EntryStill(h, lo, hi, dir, e)
    ensures LookupStat(h(t), dir, e.name) == Some(e.metadata) == LookupStat(h(hi), dir, e.name)
  {
  }
}
