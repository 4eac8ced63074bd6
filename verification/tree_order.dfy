/** The order of the files in a tree and the bytes of one record, written out. */
module TreeOrder {
  import opened Bytes
  import opened Ordering
  import opened TreeFraming

  // Paths compare by their components.

  /** path.split("/") */
  function Parts(path: seq<Byte>): (r: seq<seq<Byte>>)
    ensures r != []
  {
    if path == [] then [[]]
    else if path[0] == 47 then [[]] + Parts(path[1..])
    else var rest := Parts(path[1..]); [[path[0]] + rest[0]] + rest[1..]
  }

  /** Byte by byte; what ends first comes first. */
  predicate BytesLeq(a: seq<Byte>, b: seq<Byte>) {
    a == [] || (b != [] && if a[0] == b[0] then BytesLeq(a[1..], b[1..]) else a[0] < b[0])
  }

  /** Component by component. */
  predicate PartsLeq(a: seq<seq<Byte>>, b: seq<seq<Byte>>) {
    a == [] || (b != [] && if a[0] == b[0] then PartsLeq(a[1..], b[1..]) else BytesLeq(a[0], b[0]))
  }

  /** Files are ordered by the components of their paths, not by the bytes of their paths. */
  lemma {:induction false} PathOrderExactly(a: seq<Byte>, b: seq<Byte>)
    ensures PathLeq(a, b) <==> PartsLeq(Parts(a), Parts(b))
  {
    if a == [] {
      EmptyFirst(Parts(b));
    } else if b == [] {
      NotBeforeEmpty(a);
    } else if a[0] == b[0] {
      PathOrderExactly(a[1..], b[1..]);
      SameHead(a, b);
    } else {
      OtherHead(a, b);
    }
  }

  lemma EmptyFirst(b: seq<seq<Byte>>)
    requires b != []
    ensures PartsLeq(Parts([]), b)
  {
    assert Parts([])[1..] == [];
  }

  lemma NotBeforeEmpty(a: seq<Byte>)
    requires a != []
    ensures !PartsLeq(Parts(a), Parts([])) && !PathLeq(a, [])
  {
    var p := Parts(a);
    assert Parts([])[1..] == [];
    if a[0] == 47 {
      assert p[0] == [] && p[1..] == Parts(a[1..]);
    } else {
      assert p[0] != [];
    }
  }

  lemma SameHead(a: seq<Byte>, b: seq<Byte>)
    requires a != [] && b != [] && a[0] == b[0]
    ensures PartsLeq(Parts(a), Parts(b)) <==> PartsLeq(Parts(a[1..]), Parts(b[1..]))
  {
    var p, q, x := Parts(a[1..]), Parts(b[1..]), a[0];
    if x == 47 {
      assert Parts(a)[1..] == p && Parts(b)[1..] == q;
    } else {
      assert Parts(a)[0] == [x] + p[0] && Parts(b)[0] == [x] + q[0];
      assert Parts(a)[1..] == p[1..] && Parts(b)[1..] == q[1..];
      assert ([x] + p[0])[1..] == p[0] && ([x] + q[0])[1..] == q[0];
      hide Parts;
    }
  }

  lemma OtherHead(a: seq<Byte>, b: seq<Byte>)
    requires a != [] && b != [] && a[0] != b[0]
    ensures PathLeq(a, b) <==> PartsLeq(Parts(a), Parts(b))
  {
    var p, q := Parts(a)[0], Parts(b)[0];
    assert p == [] <==> a[0] == 47;
    assert q == [] <==> b[0] == 47;
    assert p != [] ==> p[0] == a[0];
    assert q != [] ==> q[0] == b[0];
  }

  /** A directory's files come before a file whose name goes on where the directory's name ends. */
  lemma OrderExample()
    ensures PathLeq([97, 47, 98], [97, 45, 98]) && !PathLeq([97, 45, 98], [97, 47, 98])
  {
    var a: seq<Byte>, b: seq<Byte> := [97, 47, 98], [97, 45, 98];
    assert a[1..] == [47, 98] && b[1..] == [45, 98];
  }

  // One record.

  /** The first byte of a length counts for most. */
  lemma {:induction false} HighestFirst(b: Byte, s: seq<Byte>)
    ensures FromBigEndian([b] + s) == b * Power256(|s|) + FromBigEndian(s)
  {
    if s == [] {
      assert [b] + s == [b];
    } else {
      var init, last := s[..|s| - 1], s[|s| - 1];
      HighestFirst(b, init);
      assert ([b] + s)[..|s|] == [b] + init;
      Distributes(b, Power256(|init|), FromBigEndian(init));
    }
  }

  lemma Distributes(b: nat, p: nat, f: nat)
    ensures 256 * (b * p + f) == b * (256 * p) + 256 * f
  {
  }

  /** A record is four bytes for the length of the path, the path, eight bytes for the length of the
      content, and the content. */
  lemma RecordExactly(file: TreeFile)
    requires Frame(file).Some?
    ensures var r, p := Frame(file).value, |file.path|;
            && |r| == 4 + p + 8 + |file.raw|
            && r[..4] == BigEndian(p, 4) && r[4..4 + p] == file.path
            && r[4 + p..12 + p] == BigEndian(|file.raw|, 8) && r[12 + p..] == file.raw
  {
    hide BigEndian, Power256;
    var a, b := BigEndian(|file.path|, 4), BigEndian(|file.raw|, 8);
    assert Frame(file).value == a + file.path + b + file.raw;
  }

  function Contents(files: seq<TreeFile>): seq<Byte> {
    if files == [] then [] else files[0].raw + Contents(files[1..])
  }

  /** The total is the number of bytes in all the contents. */
  lemma {:induction false} TotalExactly(files: seq<TreeFile>)
    ensures TotalBytes(files) == |Contents(files)|
  {
    if files != [] {
      var init, last := files[..|files| - 1], files[|files| - 1];
      TotalExactly(init);
      ContentsAppend(init, last);
      FrontAndLast(files);
    }
  }

  lemma {:induction false} ContentsAppend(files: seq<TreeFile>, last: TreeFile)
    ensures |Contents(files + [last])| == |Contents(files)| + |last.raw|
  {
    if files == [] {
      assert [last][1..] == [];
    } else {
      assert (files + [last])[1..] == files[1..] + [last];
      ContentsAppend(files[1..], last);
    }
  }
}
