/** The length-prefixed framing under a tree digest. */
module TreeFraming {
  import opened Bytes
  import opened Digests
  import opened Ordering

  /** A file below the root: its relative POSIX path and its content, as bytes. */
  datatype TreeFile = TreeFile(path: seq<Byte>, raw: seq<Byte>)

  function Power256(width: nat): (p: nat)
    ensures p >= 1
  {
    if width == 0 then 1 else 256 * Power256(width - 1)
  }

  /** n.to_bytes(width, "big"), for n below 256 ** width */
  function BigEndian(n: nat, width: nat): (r: seq<Byte>)
    ensures |r| == width
  {
    if width == 0 then [] else BigEndian(n / 256, width - 1) + [n % 256]
  }

  /** int.from_bytes(s, "big") */
  function FromBigEndian(s: seq<Byte>): nat {
    if s == [] then 0 else 256 * FromBigEndian(s[..|s| - 1]) + s[|s| - 1]
  }

  lemma {:induction false} BigEndianRoundTrip(n: nat, width: nat)
    requires n < Power256(width)
    ensures FromBigEndian(BigEndian(n, width)) == n
  {
    if width > 0 {
      BigEndianRoundTrip(n / 256, width - 1);
      var s := BigEndian(n, width);
      assert s[..|s| - 1] == BigEndian(n / 256, width - 1);
    }
  }

  /** The record of one file; None where to_bytes raises OverflowError. */
  function Frame(file: TreeFile): Option<seq<Byte>> {
    if |file.path| >= Power256(4) || |file.raw| >= Power256(8) then None
    else Some(BigEndian(|file.path|, 4) + file.path + BigEndian(|file.raw|, 8) + file.raw)
  }

  /** All records, in the order of the sorted file list. */
  function Encode(files: seq<TreeFile>): Option<seq<Byte>> {
    if files == [] then Some([])
    else
      match (Encode(files[..|files| - 1]), Frame(files[|files| - 1]))
      case (Some(before), Some(record)) => Some(before + record)
      case (_, _) => None
  }

  function TotalBytes(files: seq<TreeFile>): nat {
    if files == [] then 0 else TotalBytes(files[..|files| - 1]) + |files[|files| - 1].raw|
  }

  // Paths are sorted by their components.

  const SLASH: Byte := 47

  /** A slash ends a component, and a component that ends comes before one that goes on. */
  function Rank(b: Byte): int {
    if b == SLASH then -1 else b
  }

  predicate PathLeq(a: seq<Byte>, b: seq<Byte>) {
    a == [] || (b != [] && if a[0] == b[0] then PathLeq(a[1..], b[1..]) else Rank(a[0]) < Rank(b[0]))
  }

  /** The order of `sorted` over the paths of a tree, which are distinct; the contents never decide. */
  predicate FileLeq(a: TreeFile, b: TreeFile) {
    if a.path == b.path then PathLeq(a.raw, b.raw) else PathLeq(a.path, b.path)
  }

  lemma {:induction false} PathTotal(a: seq<Byte>, b: seq<Byte>)
    ensures PathLeq(a, b) || PathLeq(b, a)
  {
    if a != [] && b != [] {
      PathTotal(a[1..], b[1..]);
    }
  }

  lemma {:induction false} PathAntisymmetric(a: seq<Byte>, b: seq<Byte>)
    requires PathLeq(a, b) && PathLeq(b, a)
    ensures a == b
  {
    if a != [] && b != [] {
      assert a == [a[0]] + a[1..] && b == [b[0]] + b[1..];
      PathAntisymmetric(a[1..], b[1..]);
    }
  }

  lemma {:induction false} PathTransitive(a: seq<Byte>, b: seq<Byte>, c: seq<Byte>)
    requires PathLeq(a, b) && PathLeq(b, c)
    ensures PathLeq(a, c)
  {
    if a != [] && a[0] == b[0] == c[0] {
      PathTransitive(a[1..], b[1..], c[1..]);
    }
  }

  lemma FileTransitive(x: TreeFile, y: TreeFile, z: TreeFile)
    requires FileLeq(x, y) && FileLeq(y, z)
    ensures FileLeq(x, z)
  {
    if x.path == y.path == z.path {
      PathTransitive(x.raw, y.raw, z.raw);
    } else if x.path != y.path && y.path != z.path {
      PathTransitive(x.path, y.path, z.path);
      if x.path == z.path {
        PathAntisymmetric(x.path, y.path);
      }
    }
  }

  lemma FileOrder()
    ensures TotalOrder(FileLeq)
  {
    forall x, y ensures FileLeq(x, y) || FileLeq(y, x) {
      PathTotal(x.path, y.path);
      PathTotal(x.raw, y.raw);
    }
    forall x, y | FileLeq(x, y) && FileLeq(y, x) ensures x == y {
      if x.path == y.path {
        PathAntisymmetric(x.raw, y.raw);
      } else {
        PathAntisymmetric(x.path, y.path);
      }
    }
    forall x, y, z | FileLeq(x, y) && FileLeq(y, z) ensures FileLeq(x, z) { FileTransitive(x, y, z); }
  }

  datatype TreeDigest = TreeDigest(digest: string, total: nat, count: nat)

  /** `_tree_digest`, over the files of the tree as listing finds them; None where it raises. */
  method DigestTree(listed: seq<TreeFile>, hash: HashFunction) returns (r: Option<TreeDigest>)
    ensures var files := Sort(listed, FileLeq);
            r == match Encode(files)
                 case Some(stream) => Some(TreeDigest("sha256:" + hash(stream), TotalBytes(files), |files|))
                 case None => None
  {
    hide FileLeq, Sort, Frame;
    var digest := new Digest(hash);
    var total := 0;
    var files := Sort(listed, FileLeq);
    for i := 0 to |files|
      invariant Encode(files[..i]) == Some(digest.absorbed) && total == TotalBytes(files[..i])
      invariant digest.hash == hash
    {
      var record := Frame(files[i]);
      assert files[..i + 1][..i] == files[..i];
      if record.None? {
        UnframedFile(files, i);
        return None;
      }
      digest.Update(record.value);
      total := total + |files[i].raw|;
    }
    assert files[..|files|] == files;
    r := Some(TreeDigest("sha256:" + digest.HexDigest(), total, |files|));
  }

  lemma {:induction false} UnframedFile(files: seq<TreeFile>, i: nat)
    requires i < |files| && Frame(files[i]).None?
    ensures Encode(files).None?
  {
    if i < |files| - 1 {
      UnframedFile(files[..|files| - 1], i);
    }
  }

  // Reading the stream back.

  /** The first record and what follows it. */
  function Unframe(s: seq<Byte>): Option<(TreeFile, seq<Byte>)> {
    if |s| < 4 then None
    else
      var pathEnd := 4 + FromBigEndian(s[..4]);
      if |s| < pathEnd + 8 then None
      else
        var rawEnd := pathEnd + 8 + FromBigEndian(s[pathEnd..pathEnd + 8]);
        if |s| < rawEnd then None
        else Some((TreeFile(s[4..pathEnd], s[pathEnd + 8..rawEnd]), s[rawEnd..]))
  }

  function Decode(s: seq<Byte>): Option<seq<TreeFile>>
    decreases |s|
  {
    if s == [] then Some([])
    else
      match Unframe(s)
      case None => None
      case Some((file, rest)) =>
        match Decode(rest) case None => None case Some(files) => Some([file] + files)
  }

  lemma UnframeFrame(file: TreeFile, rest: seq<Byte>)
    requires Frame(file).Some?
    ensures Unframe(Frame(file).value + rest) == Some((file, rest))
  {
    var a, b := BigEndian(|file.path|, 4), BigEndian(|file.raw|, 8);
    var s := Frame(file).value + rest;
    BigEndianRoundTrip(|file.path|, 4);
    BigEndianRoundTrip(|file.raw|, 8);
    hide Power256, BigEndian, FromBigEndian;
    assert s == a + file.path + b + file.raw + rest;
    assert s[..4] == a;
    var pathEnd := 4 + |file.path|;
    assert s[4..pathEnd] == file.path && s[pathEnd..pathEnd + 8] == b;
    var rawEnd := pathEnd + 8 + |file.raw|;
    assert s[pathEnd + 8..rawEnd] == file.raw && s[rawEnd..] == rest;
  }

  /** Encoding from the front. */
  lemma {:induction false} EncodeFirst(files: seq<TreeFile>)
    requires files != [] && Encode(files).Some?
    ensures Frame(files[0]).Some? && Encode(files[1..]).Some?
    ensures Encode(files).value == Frame(files[0]).value + Encode(files[1..]).value
  {
    hide Frame;
    var init, rest := files[..|files| - 1], files[1..];
    if |files| == 1 {
      assert init == [] && rest == [];
    } else {
      EncodeFirst(init);
      assert init[1..] == rest[..|rest| - 1];
      assert rest[|rest| - 1] == files[|files| - 1];
    }
  }

  /** The stream decodes back to the very list of files it was made from. */
  lemma {:induction false} DecodeEncode(files: seq<TreeFile>)
    requires Encode(files).Some?
    ensures Decode(Encode(files).value) == Some(files)
  {
    if files != [] {
      hide Frame, Unframe;
      var first, rest := files[0], files[1..];
      EncodeFirst(files);
      DecodeEncode(rest);
      hide Encode;
      UnframeFrame(first, Encode(rest).value);
      RecordNotEmpty(first);
      assert files == [first] + rest;
    }
  }

  lemma RecordNotEmpty(file: TreeFile)
    requires Frame(file).Some?
    ensures |Frame(file).value| >= 12
  {
  }

  /** Two trees with the same byte stream are the same tree. */
  lemma FramingInjective(a: seq<TreeFile>, b: seq<TreeFile>)
    requires Encode(a).Some? && Encode(a) == Encode(b)
    ensures a == b
  {
    DecodeEncode(a);
    DecodeEncode(b);
  }

  ghost predicate CollisionFree(hash: HashFunction) {
    forall a, b :: hash(a) == hash(b) ==> a == b
  }

  /** The digest identifies the tree: it is the same exactly for the same files, in whatever order
      they are listed. */
  lemma DigestIdentifiesTree(a: seq<TreeFile>, b: seq<TreeFile>, hash: HashFunction)
    requires CollisionFree(hash)
    requires Encode(Sort(a, FileLeq)).Some? && Encode(Sort(b, FileLeq)).Some?
    ensures hash(Encode(Sort(a, FileLeq)).value) == hash(Encode(Sort(b, FileLeq)).value)
            <==> multiset(a) == multiset(b)
  {
    hide Encode, FileLeq, Sort;
    SortPermutes(a, FileLeq);
    SortPermutes(b, FileLeq);
    FileOrder();
    if multiset(a) == multiset(b) {
      SortCanonical(a, b, FileLeq);
    }
    if hash(Encode(Sort(a, FileLeq)).value) == hash(Encode(Sort(b, FileLeq)).value) {
      FramingInjective(Sort(a, FileLeq), Sort(b, FileLeq));
    }
  }

  /** A tree can be framed exactly when every path and every file is short enough. */
  lemma {:induction false} EncodesExactly(files: seq<TreeFile>)
    ensures Encode(files).Some?
            <==> forall i | 0 <= i < |files| ::
                   |files[i].path| < 0x1_0000_0000 && |files[i].raw| < 0x1_0000_0000_0000_0000
  {
    assert Power256(4) == 0x1_0000_0000 && Power256(8) == 0x1_0000_0000_0000_0000 by { Powers(); }
    hide Power256, BigEndian;
    if files != [] {
      EncodesExactly(files[..|files| - 1]);
    }
  }

  lemma Powers()
    ensures Power256(4) == 0x1_0000_0000 && Power256(8) == 0x1_0000_0000_0000_0000
  {
    assert Power256(2) == 0x1_0000;
    assert Power256(4) == 256 * (256 * Power256(2));
    assert Power256(6) == 256 * (256 * Power256(4));
    assert Power256(8) == 256 * (256 * Power256(6));
  }
}
