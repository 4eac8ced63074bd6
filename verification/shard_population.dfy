/** Node IDs, their canonical population, its digest and the shard each one belongs to. */
module ShardPopulation {
  import opened Ordering
  import opened Text

  datatype ShardError =
    | ShardCountOutOfRange
    | NodeidMalformed
    | NoNodeids
    | DuplicateNodeids
    | NodeidNotSingleLine
    | ShardIndexOutOfRange
    | HeadShaMalformed
    | NegativeDuration
    | PythonVersionUnsupported
    | ShardEmpty
    | ReceiptCountMismatch
    | ShardsNotCovered
    | HeadShaMismatch
    | PythonVersionMismatch
    | ShardCountMismatch
    | PopulationDisagreement
    | PopulationNotCovered
    | MembershipMissing
    | AssignedElsewhere
    | SettingsIncomplete
    | SettingsNotIntegers

  /** The two uses of SHA-256: the first eight bytes of a node ID's digest as a big-endian
      number, and the hexadecimal digest of a text. */
  datatype Hashing = Hashing(word: string -> nat, digest: string -> string)

  predicate ValidShardCount(count: int) {
    2 <= count <= 64
  }

  predicate SingleLine(nodeid: string) {
    nodeid != "" && '\n' !in nodeid
  }

  /** `shard_for` */
  function ShardFor(h: Hashing, nodeid: string, count: int): Result<nat, ShardError> {
    if !ValidShardCount(count) then Err(ShardCountOutOfRange)
    else if !SingleLine(nodeid) then Err(NodeidMalformed)
    else Ok(h.word(nodeid) % count)
  }

  predicate InShard(h: Hashing, nodeid: string, count: int, index: int) {
    match ShardFor(h, nodeid, count) case Ok(shard) => shard == index case Err(_) => false
  }

  function StripAll(nodeids: seq<string>): seq<string> {
    if nodeids == [] then []
    else (if Strip(nodeids[0]) != "" then [Strip(nodeids[0])] else []) + StripAll(nodeids[1..])
  }

  ghost predicate AllSingleLine(nodeids: seq<string>) {
    forall i | 0 <= i < |nodeids| :: SingleLine(nodeids[i])
  }

  predicate AnyNewline(nodeids: seq<string>) {
    exists i | 0 <= i < |nodeids| :: '\n' in nodeids[i]
  }

  /** `normalize_nodeids` */
  function Normalize(nodeids: seq<string>): Result<seq<string>, ShardError> {
    var normalized := Sort(StripAll(nodeids), StringLeq);
    if normalized == [] then Err(NoNodeids)
    else if |Elements(normalized)| != |normalized| then Err(DuplicateNodeids)
    else if AnyNewline(normalized) then Err(NodeidNotSingleLine)
    else Ok(normalized)
  }

  /** A canonical population. */
  ghost predicate Canonical(p: seq<string>) {
    && p != [] && Sorted(p, StringLeq) && NoDuplicates(p) && AllSingleLine(p)
    && forall i | 0 <= i < |p| :: Trimmed(p[i])
  }

  lemma {:induction false} StripAllTrims(nodeids: seq<string>)
    ensures forall i | 0 <= i < |StripAll(nodeids)| :: Trimmed(StripAll(nodeids)[i]) && StripAll(nodeids)[i] != ""
  {
    if nodeids != [] {
      StripAllTrims(nodeids[1..]);
      StripTrims(nodeids[0]);
    }
  }

  lemma {:induction false} StripAllFixed(nodeids: seq<string>)
    requires forall i | 0 <= i < |nodeids| :: Trimmed(nodeids[i]) && nodeids[i] != ""
    ensures StripAll(nodeids) == nodeids
  {
    if nodeids != [] {
      StripTrims(nodeids[0]);
      StripAllFixed(nodeids[1..]);
    }
  }

  /** Normalising yields a canonical population of the stripped node IDs. */
  lemma NormalizeCanonical(nodeids: seq<string>)
    requires Normalize(nodeids).Ok?
    ensures var p := Normalize(nodeids).value;
            Canonical(p) && multiset(p) == multiset(StripAll(nodeids))
  {
    var stripped := StripAll(nodeids);
    var p := Sort(stripped, StringLeq);
    StringOrder();
    SortSorts(stripped, StringLeq);
    SortPermutes(stripped, StringLeq);
    StripAllTrims(nodeids);
    DistinctCardinality(p);
    forall i | 0 <= i < |p| ensures SingleLine(p[i]) && Trimmed(p[i]) {
      assert p[i] in p;
      assert p[i] in stripped;
    }
  }

  /** Node IDs that are stripped, single lines and distinct normalise to their sorted list. */
  lemma NormalizeClean(nodeids: seq<string>)
    requires nodeids != [] && NoDuplicates(nodeids) && AllSingleLine(nodeids)
    requires forall i | 0 <= i < |nodeids| :: Trimmed(nodeids[i])
    ensures Normalize(nodeids) == Ok(Sort(nodeids, StringLeq))
  {
    StripAllFixed(nodeids);
    var p := Sort(nodeids, StringLeq);
    SortPermutes(nodeids, StringLeq);
    SortKeepsDistinct(nodeids, StringLeq);
    DistinctCardinality(p);
    forall i | 0 <= i < |p| ensures '\n' !in p[i] {
      assert p[i] in p;
      assert p[i] in nodeids;
    }
  }

  /** A canonical population normalises to itself, in whatever order it is presented. */
  lemma NormalizePermuted(nodeids: seq<string>, p: seq<string>)
    requires Canonical(p) && multiset(nodeids) == multiset(p)
    ensures Normalize(nodeids) == Ok(p)
  {
    PermutationBasics(nodeids, p);
    DistinctByCount(p);
    DistinctByCount(nodeids);
    forall i | 0 <= i < |nodeids| ensures SingleLine(nodeids[i]) && Trimmed(nodeids[i]) {
      assert nodeids[i] in p;
    }
    NormalizeClean(nodeids);
    StringOrder();
    SortCanonical(nodeids, p, StringLeq);
    SortFixed(p, StringLeq);
  }

  // The population digest.

  /** Each node ID followed by a newline. */
  function Lines(nodeids: seq<string>): (r: string)
    ensures nodeids == [] <==> r == ""
  {
    if nodeids == [] then "" else nodeids[0] + "\n" + Lines(nodeids[1..])
  }

  /** `nodeids_digest` */
  function Digest(h: Hashing, nodeids: seq<string>): Result<string, ShardError> {
    match Normalize(nodeids)
    case Ok(p) => Ok(h.digest(Lines(p)))
    case Err(e) => Err(e)
  }

  lemma DigestOfCanonical(h: Hashing, p: seq<string>)
    requires Canonical(p)
    ensures Digest(h, p) == Ok(h.digest(Lines(p)))
  {
    NormalizePermuted(p, p);
  }

  lemma NewlineAfter(a: string, rest: string, k: nat)
    requires '\n' !in a && k < |a + "\n" + rest| && (a + "\n" + rest)[k] == '\n'
    ensures |a| <= k
  {
    forall i | 0 <= i < |a| ensures (a + "\n" + rest)[i] != '\n' {
      assert a[i] in a;
    }
  }

  lemma FirstLine(a: string, rest: string, b: string, rest': string)
    requires '\n' !in a && '\n' !in b
    requires a + "\n" + rest == b + "\n" + rest'
    ensures a == b && rest == rest'
  {
    var s := a + "\n" + rest;
    assert s == b + "\n" + rest';
    assert s[|a|] == '\n' && s[|b|] == '\n';
    NewlineAfter(a, rest, |b|);
    NewlineAfter(b, rest', |a|);
    assert a == s[..|a|] && b == s[..|b|];
    assert rest == s[|a| + 1..] && rest' == s[|b| + 1..];
  }

  /** The newline framing is unambiguous. */
  lemma {:induction false} LinesInjective(p: seq<string>, q: seq<string>)
    requires AllSingleLine(p) && AllSingleLine(q) && Lines(p) == Lines(q)
    ensures p == q
  {
    if p != [] {
      FirstLine(p[0], Lines(p[1..]), q[0], Lines(q[1..]));
      LinesInjective(p[1..], q[1..]);
      assert p == [p[0]] + p[1..] && q == [q[0]] + q[1..];
    }
  }

  ghost predicate CollisionFree(h: Hashing) {
    forall a, b | h.digest(a) == h.digest(b) :: a == b
  }

  lemma EqualDigestsEqualPopulations(h: Hashing, p: seq<string>, q: seq<string>)
    requires CollisionFree(h) && Canonical(p) && Canonical(q)
    requires h.digest(Lines(p)) == h.digest(Lines(q))
    ensures p == q
  {
    LinesInjective(p, q);
  }
}
