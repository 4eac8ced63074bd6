/** A file system shared with other processes, as a history of states. A tool's system
    calls read the state of the instant at which they happen; between two calls any
    number of outside changes may occur. */
module FileSystem {
  import opened Bytes
  import opened Ordering

  type Instant = nat
  type NodeId = nat

  /** The fields of os.stat_result that make up _METADATA_FIELDS. */
  datatype Stat = Stat(dev: int, ino: int, mode: nat, nlink: int, size: nat, mtimeNs: int, ctimeNs: int)

  datatype Content =
    | FileBytes(bytes: seq<Byte>)
    | DirEntries(entries: map<string, NodeId>)
    | Symlink
    | Special

  /** A file system object. It keeps its NodeId for as long as it exists, under any name. */
  datatype Node = Node(content: Content, stat: Stat)

  /** `candidate` is the object that the tool's directory argument names at this instant. */
  datatype State = State(nodes: map<NodeId, Node>, candidate: Option<NodeId>)

  type History = Instant -> State

  // stat.S_IFMT keeps the four bits above the permission bits.
  function FileType(mode: nat): nat { (mode / 4096) % 16 }
  predicate IsRegular(mode: nat) { FileType(mode) == 8 }
  predicate IsDirectory(mode: nat) { FileType(mode) == 4 }
  predicate IsLink(mode: nat) { FileType(mode) == 10 }

  /** The four bits above the permissions are 8 for a regular file, 4 for a directory and 10 for a link,
      whatever stands above and below them. */
  lemma FileTypes(above: nat, kind: nat, permissions: nat)
    requires kind < 16 && permissions < 4096
    ensures var mode := above * 65536 + kind * 4096 + permissions;
            (IsRegular(mode) <==> kind == 8) && (IsDirectory(mode) <==> kind == 4) && (IsLink(mode) <==> kind == 10)
  {
    var mode := above * 65536 + kind * 4096 + permissions;
    assert mode == (above * 16 + kind) * 4096 + permissions;
    assert mode / 4096 == above * 16 + kind;
  }

  /** `_metadata_identity`: the seven fields as a tuple, never empty. */
  function MetadataIdentity(s: Stat): seq<int> {
    [s.dev, s.ino, s.mode, s.nlink, s.size, s.mtimeNs, s.ctimeNs]
  }

  lemma IdentityIsExact(a: Stat, b: Stat)
    ensures MetadataIdentity(a) == MetadataIdentity(b) <==> a == b
  {
    if MetadataIdentity(a) == MetadataIdentity(b) {
      var x, y := MetadataIdentity(a), MetadataIdentity(b);
      assert x[0] == y[0] && x[1] == y[1] && x[2] == y[2] && x[3] == y[3];
      assert x[4] == y[4] && x[5] == y[5] && x[6] == y[6];
    }
  }

  ghost predicate WellFormedNode(node: Node) {
    match node.content
    case FileBytes(bytes) => IsRegular(node.stat.mode) && node.stat.size == |bytes|
    case DirEntries(_) => IsDirectory(node.stat.mode)
    case Symlink => IsLink(node.stat.mode)
    case Special => !IsRegular(node.stat.mode) && !IsDirectory(node.stat.mode) && !IsLink(node.stat.mode)
  }

  ghost predicate WellFormed(s: State) {
    && (forall n | n in s.nodes :: WellFormedNode(s.nodes[n]))
    && (forall n, name | n in s.nodes && s.nodes[n].content.DirEntries? && name in s.nodes[n].content.entries ::
          s.nodes[n].content.entries[name] in s.nodes)
    && (s.candidate.Some? ==> s.candidate.value in s.nodes)
  }

  ghost predicate DistinctStats(s: State) {
    forall n, m | n in s.nodes && m in s.nodes && n != m :: s.nodes[n].stat != s.nodes[m].stat
  }

  ghost predicate StatOnlyOn(s: State, n: NodeId)
    requires n in s.nodes
  {
    forall m | m in s.nodes && m != n :: s.nodes[m].stat != s.nodes[n].stat
  }

  /** Some object showed metadata `stat` at instant t or before. */
  ghost predicate SeenBy(h: History, t: Instant, stat: Stat) {
    exists u: Instant, n | u <= t && n in h(u).nodes :: h(u).nodes[n].stat == stat
  }

  /** A directory stays a directory. */
  ghost predicate KeepsKind(a: Node, b: Node) {
    a.content.DirEntries? <==> b.content.DirEntries?
  }

  /** THE environment assumption. From one instant to the next, every object either keeps
      its content and metadata, or (changed or newly created) takes metadata that no object
      has shown before and no other object shows now. Device and inode numbers separate the
      live objects, and the nanosecond change time moves with every change. */
  ghost predicate FreshStep(h: History, t: Instant) {
    && (forall n | n in h(t).nodes :: n in h(t + 1).nodes && KeepsKind(h(t).nodes[n], h(t + 1).nodes[n]))
    && (forall n | n in h(t + 1).nodes ::
          || (n in h(t).nodes && h(t).nodes[n] == h(t + 1).nodes[n])
          || (!SeenBy(h, t, h(t + 1).nodes[n].stat) && StatOnlyOn(h(t + 1), n)))
  }

  ghost predicate Environment(h: History) {
    && DistinctStats(h(0))
    && (forall t: Instant :: WellFormed(h(t)))
    && (forall t: Instant :: FreshStep(h, t))
  }

  lemma {:induction false} NodesPersist(h: History, lo: Instant, hi: Instant, n: NodeId)
    requires Environment(h) && lo <= hi && n in h(lo).nodes
    ensures n in h(hi).nodes
    decreases hi
  {
    if lo < hi {
      NodesPersist(h, lo, hi - 1, n);
      assert FreshStep(h, hi - 1);
    }
  }

  lemma {:induction false} StaysDirectory(h: History, lo: Instant, hi: Instant, n: NodeId)
    requires Environment(h) && lo <= hi && n in h(lo).nodes && h(lo).nodes[n].content.DirEntries?
    ensures n in h(hi).nodes && h(hi).nodes[n].content.DirEntries?
    decreases hi
  {
    if lo < hi {
      StaysDirectory(h, lo, hi - 1, n);
      assert FreshStep(h, hi - 1);
    }
  }

  lemma {:induction false} StatsStayDistinct(h: History, t: Instant)
    requires Environment(h)
    ensures DistinctStats(h(t))
  {
    if t > 0 {
      StatsStayDistinct(h, t - 1);
      assert FreshStep(h, t - 1);
      forall n, m | n in h(t).nodes && m in h(t).nodes && n != m ensures h(t).nodes[n].stat != h(t).nodes[m].stat {
        if n in h(t - 1).nodes && h(t - 1).nodes[n] == h(t).nodes[n] {
          if m in h(t - 1).nodes && h(t - 1).nodes[m] == h(t).nodes[m] {
          } else {
            assert !SeenBy(h, t - 1, h(t).nodes[m].stat);
          }
        }
      }
    }
  }

  /** The object n is unchanged from instant lo to instant hi. */
  ghost predicate Frozen(h: History, lo: Instant, hi: Instant, n: NodeId) {
    n in h(lo).nodes && forall t: Instant | lo <= t <= hi :: n in h(t).nodes && h(t).nodes[n] == h(lo).nodes[n]
  }

  /** Equal metadata at two instants pins the object and everything in it in between. */
  lemma {:induction false} SameMetadataMeansFrozen(h: History, lo: Instant, hi: Instant, n: NodeId, m: NodeId)
    requires Environment(h) && lo <= hi
    requires n in h(lo).nodes && m in h(hi).nodes
    requires h(lo).nodes[n].stat == h(hi).nodes[m].stat
    ensures n == m
    ensures Frozen(h, lo, hi, n)
    decreases hi
  {
    if lo == hi {
      StatsStayDistinct(h, lo);
    } else {
      var before := hi - 1;
      SeenIsUnchanged(h, lo, before, n, m);
      hide Environment;
      SameMetadataMeansFrozen(h, lo, before, n, m);
    }
  }

  /** Metadata seen before belongs to an object that did not change just now. */
  lemma SeenIsUnchanged(h: History, lo: Instant, t: Instant, n: NodeId, m: NodeId)
    requires Environment(h) && lo <= t && n in h(lo).nodes && m in h(t + 1).nodes
    requires h(lo).nodes[n].stat == h(t + 1).nodes[m].stat
    ensures m in h(t).nodes && h(t).nodes[m] == h(t + 1).nodes[m]
  {
    assert FreshStep(h, t);
    assert SeenBy(h, t, h(lo).nodes[n].stat);
  }

  /** Nothing at all changes from lo to hi. */
  ghost predicate Quiet(h: History, lo: Instant, hi: Instant) {
    forall t: Instant | lo <= t <= hi :: h(t) == h(lo)
  }

  // What a system call finds in one state.

  predicate Resolves(s: State, dir: NodeId, name: string) {
    && dir in s.nodes
    && s.nodes[dir].content.DirEntries?
    && name in s.nodes[dir].content.entries
    && s.nodes[dir].content.entries[name] in s.nodes
  }

  function Resolve(s: State, dir: NodeId, name: string): NodeId
    requires Resolves(s, dir, name)
  {
    s.nodes[dir].content.entries[name]
  }

  /** os.stat(name, dir_fd=dir, follow_symlinks=False) */
  function LookupStat(s: State, dir: NodeId, name: string): Option<Stat> {
    if Resolves(s, dir, name) then Some(s.nodes[Resolve(s, dir, name)].stat) else None
  }

  /** os.lstat(path) of the tool's directory argument */
  function PathStat(s: State): Option<Stat> {
    if s.candidate.Some? && s.candidate.value in s.nodes then Some(s.nodes[s.candidate.value].stat) else None
  }

  function EntriesOf(s: State, dir: NodeId): map<string, NodeId> {
    if dir in s.nodes && s.nodes[dir].content.DirEntries? then s.nodes[dir].content.entries else map[]
  }

  function BytesOf(s: State, n: NodeId): seq<Byte> {
    if n in s.nodes && s.nodes[n].content.FileBytes? then s.nodes[n].content.bytes else []
  }
}
