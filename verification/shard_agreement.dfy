/** What accepted receipts mean, and that honest receipts are accepted. */
module ShardAgreement {
  import opened Ordering
  import opened ShardPopulation
  import opened ShardReceipts

  ghost predicate WellAssigned(h: Hashing, r: Receipt, count: int) {
    && r.selectedNodeids.Some?
    && forall i | 0 <= i < |r.selectedNodeids.value| ::
         ShardFor(h, r.selectedNodeids.value[i], count).Ok?
         && Some(ShardFor(h, r.selectedNodeids.value[i], count).value as int) == r.shardIndex
  }

  ghost predicate Header(r: Receipt, first: Receipt, headSha: string, pythonVersion: string, count: int) {
    && r.headSha == Some(headSha) && r.pythonVersion == Some(pythonVersion) && r.shardCount == Some(count)
    && r.populationCount == first.populationCount && r.populationSha256 == first.populationSha256
  }

  /** The conditions for acceptance, all at once. */
  ghost predicate Accepts(h: Hashing, receipts: seq<Receipt>, headSha: string, pythonVersion: string, count: int) {
    && ValidShardCount(count)
    && |receipts| == count
    && Indexes(receipts) == ExpectedIndexes(count)
    && (forall i | 0 <= i < |receipts| :: Header(receipts[i], receipts[0], headSha, pythonVersion, count))
    && Normalize(Concatenated(receipts)).Ok?
    && Some(|Normalize(Concatenated(receipts)).value| as int) == receipts[0].populationCount
    && (forall i | 0 <= i < |receipts| :: WellAssigned(h, receipts[i], count))
  }

  lemma {:induction false} NoneMisassigned(h: Hashing, nodeids: seq<string>, index: Option<int>, count: int)
    ensures Misassigned(h, nodeids, index, count) == None
            <==> forall i | 0 <= i < |nodeids| ::
                   ShardFor(h, nodeids[i], count).Ok? && Some(ShardFor(h, nodeids[i], count).value as int) == index
  {
    hide ShardFor;
    if nodeids != [] {
      NoneMisassigned(h, nodeids[1..], index, count);
      assert forall i | 0 < i < |nodeids| :: nodeids[i] == nodeids[1..][i - 1];
      assert forall i | 0 <= i < |nodeids| - 1 :: nodeids[1..][i] == nodeids[i + 1];
    }
  }

  lemma {:induction false} AllAssigned(h: Hashing, receipts: seq<Receipt>, count: int)
    ensures AnyMisassigned(h, receipts, count) == None
            <==> forall i | 0 <= i < |receipts| :: WellAssigned(h, receipts[i], count)
  {
    if receipts != [] {
      if receipts[0].selectedNodeids.Some? {
        NoneMisassigned(h, receipts[0].selectedNodeids.value, receipts[0].shardIndex, count);
      }
      AllAssigned(h, receipts[1..], count);
      hide WellAssigned, Misassigned;
      assert forall i | 0 < i < |receipts| :: receipts[i] == receipts[1..][i - 1];
      assert forall i | 0 <= i < |receipts| - 1 :: receipts[1..][i] == receipts[i + 1];
    }
  }

  /** The verifier accepts exactly under these conditions. */
  lemma AcceptedExactly(h: Hashing, receipts: seq<Receipt>, headSha: string, pythonVersion: string, count: int)
    ensures ValidateReceipts(h, receipts, headSha, pythonVersion, count).Ok?
            <==> Accepts(h, receipts, headSha, pythonVersion, count)
    ensures Accepts(h, receipts, headSha, pythonVersion, count) ==>
              var s := ValidateReceipts(h, receipts, headSha, pythonVersion, count).value;
              s.populationCount == receipts[0].populationCount && s.populationSha256 == receipts[0].populationSha256
  {
    hide Normalize, WellAssigned, AnyMisassigned, Indexes, ExpectedIndexes, Concatenated;
    AllAssigned(h, receipts, count);
    assert forall i | 0 <= i < |receipts| :: receipts[i] in receipts;
  }

  // Soundness, whoever wrote the receipts.

  ghost predicate EachIndexOnce(receipts: seq<Receipt>, count: int) {
    forall k: int | 0 <= k < count :: ExactlyOne(receipts, (r: Receipt) => r.shardIndex == Some(k))
  }

  function IndexList(receipts: seq<Receipt>): (r: seq<Option<int>>)
    ensures |r| == |receipts| && forall i | 0 <= i < |r| :: r[i] == receipts[i].shardIndex
  {
    if receipts == [] then [] else [receipts[0].shardIndex] + IndexList(receipts[1..])
  }

  lemma {:induction false} ExpectedSize(count: nat)
    ensures |ExpectedIndexes(count)| == count
  {
    if count == 0 {
      assert ExpectedIndexes(0) == {};
    } else {
      ExpectedSize(count - 1);
      assert ExpectedIndexes(count) == ExpectedIndexes(count - 1) + {Some(count - 1)};
    }
  }

  /** As many receipts as shards, covering all shards, are one per shard. */
  lemma CoveringIsOnce(receipts: seq<Receipt>, count: nat)
    requires |receipts| == count && Indexes(receipts) == ExpectedIndexes(count)
    ensures NoDuplicates(IndexList(receipts))
    ensures EachIndexOnce(receipts, count)
  {
    var list := IndexList(receipts);
    ExpectedSize(count);
    forall x ensures x in Elements(list) <==> x in Indexes(receipts) {
      if x in Indexes(receipts) {
        var i :| 0 <= i < |receipts| && receipts[i].shardIndex == x;
        assert list[i] == x;
      }
    }
    assert Elements(list) == Indexes(receipts);
    DistinctCardinality(list);
    forall k: int | 0 <= k < count ensures ExactlyOne(receipts, (r: Receipt) => r.shardIndex == Some(k)) {
      assert Some(k) in ExpectedIndexes(count);
      assert Some(k) in Elements(list);
      var i :| 0 <= i < |list| && list[i] == Some(k);
      forall i, j | 0 <= i < j < |receipts| ensures !(receipts[i].shardIndex == receipts[j].shardIndex == Some(k)) {
        assert list[i] != list[j];
      }
    }
  }

  /** Acceptance means: every shard reported once; the stripped, non-blank node IDs of all
      receipts are distinct and as many as the population; every node ID belongs to the shard of
      the receipt that lists it; and if they all lie in a population of that size, they are it. */
  lemma VerifierSound(h: Hashing, receipts: seq<Receipt>, headSha: string, pythonVersion: string, count: int)
    requires ValidateReceipts(h, receipts, headSha, pythonVersion, count).Ok?
    ensures EachIndexOnce(receipts, count)
    ensures var ids := StripAll(Concatenated(receipts));
            && NoDuplicates(ids)
            && Some(|ids| as int) == receipts[0].populationCount
            && (forall p: set<string> | Elements(ids) <= p && Some(|p| as int) == receipts[0].populationCount ::
                  Elements(ids) == p)
    ensures forall i | 0 <= i < |receipts| :: WellAssigned(h, receipts[i], count)
  {
    AcceptedExactly(h, receipts, headSha, pythonVersion, count);
    CoveringIsOnce(receipts, count);
    var ids, normalized := StripAll(Concatenated(receipts)), Normalize(Concatenated(receipts)).value;
    NormalizeCanonical(Concatenated(receipts));
    SortPermutes(ids, StringLeq);
    SortKeepsDistinct(ids, StringLeq);
    DistinctCardinality(ids);
    hide Normalize, Canonical;
    forall p: set<string> | Elements(ids) <= p && Some(|p| as int) == receipts[0].populationCount
      ensures Elements(ids) == p
    {
      FullSubset(Elements(ids), p);
    }
  }

  // Receipts that shard_receipt wrote.

  /** The receipt is the one that shard_receipt gives for this population and shard. */
  ghost predicate Produced(h: Hashing, r: Receipt, nodeids: seq<string>, index: int, count: int, headSha: string,
                           pythonVersion: string, duration: Option<real>) {
    ShardReceipt(h, nodeids, index, count, headSha, pythonVersion, duration) == Ok(r)
  }

  /** What a produced receipt says. */
  lemma ProducedFacts(h: Hashing, r: Receipt, nodeids: seq<string>, index: int, count: int, headSha: string,
                      pythonVersion: string, duration: Option<real>)
    returns (p: seq<string>)
    requires Produced(h, r, nodeids, index, count, headSha, pythonVersion, duration)
    ensures Normalize(nodeids) == Ok(p) && Canonical(p)
    ensures ValidShardCount(count) && 0 <= index < count
    ensures r.headSha == Some(headSha) && r.pythonVersion == Some(pythonVersion)
    ensures r.shardCount == Some(count) && r.shardIndex == Some(index)
    ensures r.populationCount == Some(|p|) && r.populationSha256 == Some(h.digest(Lines(p)))
    ensures r.selectedNodeids == Some(Selected(h, p, index, count)) && Selected(h, p, index, count) != []
    ensures r.durationSeconds == duration
  {
    p := Normalize(nodeids).value;
    NormalizeCanonical(nodeids);
    DigestOfCanonical(h, p);
    hide Normalize, Selected, Lines, Canonical;
  }

  lemma SelectedMembers(h: Hashing, p: seq<string>, index: int, count: int, nodeid: string)
    ensures nodeid in Selected(h, p, index, count) <==> nodeid in p && InShard(h, nodeid, count, index)
  {
    FilterMember(p, (nodeid: string) => InShard(h, nodeid, count, index), nodeid);
  }

  /** Every member of a canonical population belongs to one of the shards. */
  lemma ShardExists(h: Hashing, p: seq<string>, count: int, nodeid: string) returns (k: int)
    requires Canonical(p) && ValidShardCount(count) && nodeid in p
    ensures 0 <= k < count && forall j: int :: InShard(h, nodeid, count, j) <==> j == k
  {
    var i :| 0 <= i < |p| && p[i] == nodeid;
    assert SingleLine(p[i]);
    k := h.word(nodeid) % count;
  }

  ghost predicate AllProduced(h: Hashing, receipts: seq<Receipt>, nodeids: seq<seq<string>>, indexes: seq<int>,
                              counts: seq<int>, heads: seq<string>, versions: seq<string>,
                              durations: seq<Option<real>>) {
    && |nodeids| == |receipts| && |indexes| == |receipts| && |counts| == |receipts|
    && |heads| == |receipts| && |versions| == |receipts| && |durations| == |receipts|
    && forall i | 0 <= i < |receipts| ::
         Produced(h, receipts[i], nodeids[i], indexes[i], counts[i], heads[i], versions[i], durations[i])
  }

  /** The receipt set splits the population: each member is in exactly one selection, and
      nothing else is in any. */
  ghost predicate PartitionsPopulation(receipts: seq<Receipt>, p: seq<string>) {
    && (forall nodeid | nodeid in p :: ExactlyOne(receipts, (r: Receipt) => nodeid in Members(r)))
    && (forall i, nodeid | 0 <= i < |receipts| && nodeid in Members(receipts[i]) :: nodeid in p)
  }

  /** Accepted receipts that shard_receipt wrote, from whatever inputs, all come from one
      population, and their selections partition it. */
  lemma AcceptedPartition(h: Hashing, receipts: seq<Receipt>, nodeids: seq<seq<string>>, indexes: seq<int>,
                          counts: seq<int>, heads: seq<string>, versions: seq<string>, durations: seq<Option<real>>,
                          headSha: string, pythonVersion: string, count: int)
    returns (p: seq<string>)
    requires CollisionFree(h)
    requires AllProduced(h, receipts, nodeids, indexes, counts, heads, versions, durations)
    requires ValidateReceipts(h, receipts, headSha, pythonVersion, count).Ok?
    ensures forall i | 0 <= i < |receipts| :: Normalize(nodeids[i]) == Ok(p)
    ensures PartitionsPopulation(receipts, p)
  {
    AcceptedExactly(h, receipts, headSha, pythonVersion, count);
    CoveringIsOnce(receipts, count);
    hide Normalize, Canonical, Selected, Lines, Indexes, ExpectedIndexes, WellAssigned, ShardReceipt;
    hide CollisionFree, InShard, Concatenated, ValidateReceipts;
    p := ProducedFacts(h, receipts[0], nodeids[0], indexes[0], counts[0], heads[0], versions[0], durations[0]);
    forall i | 0 <= i < |receipts|
      ensures Normalize(nodeids[i]) == Ok(p) && receipts[i].shardIndex.Some?
      ensures Members(receipts[i]) == Selected(h, p, receipts[i].shardIndex.value, count)
    {
      var q := ProducedFacts(h, receipts[i], nodeids[i], indexes[i], counts[i], heads[i], versions[i], durations[i]);
      assert Header(receipts[i], receipts[0], headSha, pythonVersion, count);
      EqualDigestsEqualPopulations(h, p, q);
    }
    SelectionsPartition(h, receipts, p, count);
  }

  lemma SelectionsPartition(h: Hashing, receipts: seq<Receipt>, p: seq<string>, count: int)
    requires Canonical(p) && ValidShardCount(count) && EachIndexOnce(receipts, count)
    requires forall i | 0 <= i < |receipts| ::
               receipts[i].shardIndex.Some?
               && Members(receipts[i]) == Selected(h, p, receipts[i].shardIndex.value, count)
    ensures PartitionsPopulation(receipts, p)
  {
    hide Canonical, Selected, InShard, Members;
    forall nodeid | nodeid in p ensures ExactlyOne(receipts, (r: Receipt) => nodeid in Members(r)) {
      var k := ShardExists(h, p, count, nodeid);
      var here := (r: Receipt) => r.shardIndex == Some(k);
      assert ExactlyOne(receipts, here);
      forall i | 0 <= i < |receipts| ensures nodeid in Members(receipts[i]) <==> here(receipts[i]) {
        SelectedMembers(h, p, receipts[i].shardIndex.value, count, nodeid);
      }
    }
    forall i, nodeid | 0 <= i < |receipts| && nodeid in Members(receipts[i]) ensures nodeid in p {
      SelectedMembers(h, p, receipts[i].shardIndex.value, count, nodeid);
    }
  }
}
