/** Honest receipts, in any order, are accepted. */
module ShardRoundTrip {
  import opened Ordering
  import opened Text
  import opened ShardPopulation
  import opened ShardReceipts
  import opened ShardAgreement

  lemma {:induction false} ConcatenatedAppend(a: seq<Receipt>, b: seq<Receipt>)
    ensures Concatenated(a + b) == Concatenated(a) + Concatenated(b)
  {
    hide Members;
    if b == [] {
      assert a + b == a;
    } else {
      var init, last := b[..|b| - 1], b[|b| - 1];
      assert (a + b)[..|a + b| - 1] == a + init && (a + b)[|a + b| - 1] == last;
      ConcatenatedAppend(a, init);
      calc {
        Concatenated(a + b);
        Concatenated(a + init) + Members(last);
        (Concatenated(a) + Concatenated(init)) + Members(last);
        Concatenated(a) + (Concatenated(init) + Members(last));
        Concatenated(a) + Concatenated(b);
      }
    }
  }

  lemma ConcatenatedSplit(front: seq<Receipt>, x: Receipt, back: seq<Receipt>)
    ensures multiset(Concatenated(front + [x] + back)) == multiset(Concatenated(front + back)) + multiset(Members(x))
  {
    ConcatenatedAppend(front, back);
    ConcatenatedAppend(front + [x], back);
    ConcatenatedAppend(front, [x]);
    assert Concatenated([x]) == Members(x);
  }

  lemma {:induction false} ConcatenatedPermutes(a: seq<Receipt>, b: seq<Receipt>)
    requires multiset(a) == multiset(b)
    ensures multiset(Concatenated(a)) == multiset(Concatenated(b))
  {
    if a == [] {
      assert |multiset(b)| == 0;
    } else {
      var k := TakeOut(a, b);
      ConcatenatedPermutes(a[..|a| - 1], b[..k] + b[k + 1..]);
      ConcatenatedSplit(b[..k], b[k], b[k + 1..]);
    }
  }

  /** Receipt k lists the members of shard k. */
  ghost predicate ByShard(h: Hashing, receipts: seq<Receipt>, p: seq<string>, count: int) {
    forall k | 0 <= k < |receipts| :: Members(receipts[k]) == Selected(h, p, k, count)
  }

  /** How often a node ID is listed by the first n receipts. */
  lemma {:induction false} ListedOnce(h: Hashing, receipts: seq<Receipt>, p: seq<string>, count: int, nodeid: string,
                                      k: int)
    requires ByShard(h, receipts, p, count)
    requires forall j: int :: InShard(h, nodeid, count, j) <==> j == k
    requires 0 <= k
    ensures multiset(Concatenated(receipts))[nodeid] == if k < |receipts| then multiset(p)[nodeid] else 0
  {
    if receipts != [] {
      var n := |receipts| - 1;
      ListedOnce(h, receipts[..n], p, count, nodeid, k);
      FilterCounts(p, (x: string) => InShard(h, x, count, n), nodeid);
      assert Members(receipts[n]) == Selected(h, p, n, count);
    }
  }

  lemma {:induction false} ListsOnlyMembers(h: Hashing, receipts: seq<Receipt>, p: seq<string>, count: int,
                                            nodeid: string)
    requires ByShard(h, receipts, p, count) && nodeid !in p
    ensures multiset(Concatenated(receipts))[nodeid] == 0
  {
    if receipts != [] {
      var n := |receipts| - 1;
      ListsOnlyMembers(h, receipts[..n], p, count, nodeid);
      assert Members(receipts[n]) == Selected(h, p, n, count);
      SelectedMembers(h, p, n, count, nodeid);
    }
  }

  /** The selections of all shards together are the population. */
  lemma SelectionsConserve(h: Hashing, receipts: seq<Receipt>, p: seq<string>, count: int)
    requires ValidShardCount(count) && |receipts| == count && Canonical(p)
    requires ByShard(h, receipts, p, count)
    ensures multiset(Concatenated(receipts)) == multiset(p)
  {
    hide Canonical, ByShard;
    var left, right := multiset(Concatenated(receipts)), multiset(p);
    forall nodeid ensures left[nodeid] == right[nodeid] {
      if nodeid in p {
        var k := ShardExists(h, p, count, nodeid);
        ListedOnce(h, receipts, p, count, nodeid, k);
      } else {
        ListsOnlyMembers(h, receipts, p, count, nodeid);
        assert nodeid !in right;
      }
    }
    SameCounts(left, right);
  }

  /** One receipt per shard, from shard_receipt, in shard order. */
  ghost predicate Honest(h: Hashing, receipts: seq<Receipt>, nodeids: seq<string>, count: int, headSha: string,
                         pythonVersion: string, durations: seq<Option<real>>) {
    && |receipts| == count == |durations|
    && forall k | 0 <= k < count :: Produced(h, receipts[k], nodeids, k, count, headSha, pythonVersion, durations[k])
  }

  lemma HonestFacts(h: Hashing, receipts: seq<Receipt>, nodeids: seq<string>, count: int, headSha: string,
                    pythonVersion: string, durations: seq<Option<real>>)
    returns (p: seq<string>)
    requires count > 0 && Honest(h, receipts, nodeids, count, headSha, pythonVersion, durations)
    ensures Normalize(nodeids) == Ok(p) && Canonical(p) && ValidShardCount(count)
    ensures ByShard(h, receipts, p, count)
    ensures forall k | 0 <= k < count ::
              && receipts[k].headSha == Some(headSha) && receipts[k].pythonVersion == Some(pythonVersion)
              && receipts[k].shardCount == Some(count) && receipts[k].shardIndex == Some(k)
              && receipts[k].populationCount == Some(|p|) && receipts[k].populationSha256 == Some(h.digest(Lines(p)))
              && receipts[k].selectedNodeids == Some(Selected(h, p, k, count))
              && receipts[k].durationSeconds == durations[k]
  {
    hide Normalize, Canonical, Selected, ShardReceipt, Lines;
    p := ProducedFacts(h, receipts[0], nodeids, 0, count, headSha, pythonVersion, durations[0]);
    forall k | 0 <= k < count
      ensures && receipts[k].headSha == Some(headSha) && receipts[k].pythonVersion == Some(pythonVersion)
              && receipts[k].shardCount == Some(count) && receipts[k].shardIndex == Some(k)
              && receipts[k].populationCount == Some(|p|) && receipts[k].populationSha256 == Some(h.digest(Lines(p)))
              && receipts[k].selectedNodeids == Some(Selected(h, p, k, count))
              && receipts[k].durationSeconds == durations[k]
    {
      assert Produced(h, receipts[k], nodeids, k, count, headSha, pythonVersion, durations[k]);
      var q := ProducedFacts(h, receipts[k], nodeids, k, count, headSha, pythonVersion, durations[k]);
    }
  }

  lemma SelectedAssigned(h: Hashing, r: Receipt, p: seq<string>, index: int, count: int)
    requires r.selectedNodeids == Some(Selected(h, p, index, count)) && r.shardIndex == Some(index)
    ensures WellAssigned(h, r, count)
  {
    var selected := Selected(h, p, index, count);
    forall i | 0 <= i < |selected| ensures InShard(h, selected[i], count, index) {
      SelectedMembers(h, p, index, count, selected[i]);
      assert selected[i] in selected;
    }
  }

  lemma {:induction false} DurationsInOrder(receipts: seq<Receipt>, durations: seq<Option<real>>)
    requires |receipts| == |durations| && forall k | 0 <= k < |receipts| :: receipts[k].durationSeconds == durations[k]
    ensures Durations(receipts) == durations
  {
    if receipts != [] {
      DurationsInOrder(receipts[1..], durations[1..]);
    }
  }

  lemma IndexesCover(receipts: seq<Receipt>, shuffled: seq<Receipt>, count: int)
    requires multiset(shuffled) == multiset(receipts) && |receipts| == count
    requires forall k | 0 <= k < count :: receipts[k].shardIndex == Some(k)
    ensures Indexes(shuffled) == ExpectedIndexes(count)
  {
    PermutationBasics(shuffled, receipts);
    forall x ensures x in Indexes(shuffled) <==> x in ExpectedIndexes(count) {
      if x in Indexes(shuffled) {
        var r :| r in shuffled && r.shardIndex == x;
        assert r in receipts;
      }
      if x in ExpectedIndexes(count) {
        var k: int :| 0 <= k < count && Some(k) == x;
        assert receipts[k] in shuffled;
      }
    }
  }

  function IndexOf(r: Receipt): int {
    match r.shardIndex case Some(k) => k case None => 0
  }

  /** The round trip: whatever the order in which the receipts arrive, the verifier accepts
      them and restores the durations to shard order. */
  lemma ReceiptsRoundTrip(h: Hashing, receipts: seq<Receipt>, shuffled: seq<Receipt>, nodeids: seq<string>, count: int,
                          headSha: string, pythonVersion: string, durations: seq<Option<real>>)
    requires ValidShardCount(count)
    requires Honest(h, receipts, nodeids, count, headSha, pythonVersion, durations)
    requires multiset(shuffled) == multiset(receipts)
    ensures Normalize(nodeids).Ok?
    ensures var p := Normalize(nodeids).value;
            ValidateReceipts(h, shuffled, headSha, pythonVersion, count)
              == Ok(Summary(Some(|p|), Some(h.digest(Lines(p))), durations))
  {
    hide Normalize, Canonical, Selected, Lines, Concatenated, WellAssigned, Sort, ByShard, ShardReceipt, Indexes;
    hide ValidateReceipts, ExpectedIndexes, Durations, AnyMisassigned;
    var p := HonestFacts(h, receipts, nodeids, count, headSha, pythonVersion, durations);
    PermutationBasics(shuffled, receipts);
    IndexesCover(receipts, shuffled, count);
    ConcatenatedPermutes(shuffled, receipts);
    SelectionsConserve(h, receipts, p, count);
    NormalizePermuted(Concatenated(shuffled), p);
    forall i | 0 <= i < |shuffled|
      ensures Header(shuffled[i], shuffled[0], headSha, pythonVersion, count) && WellAssigned(h, shuffled[i], count)
    {
      assert shuffled[i] in receipts && shuffled[0] in receipts;
      var k :| 0 <= k < count && receipts[k] == shuffled[i];
      SelectedAssigned(h, receipts[k], p, k, count);
    }
    assert shuffled[0] in receipts;
    SortByKey(shuffled, receipts, IndexLeq, IndexOf);
    DurationsInOrder(receipts, durations);
    AcceptedExactly(h, shuffled, headSha, pythonVersion, count);
    AcceptedDurations(h, shuffled, headSha, pythonVersion, count);
  }

  lemma AcceptedDurations(h: Hashing, receipts: seq<Receipt>, headSha: string, pythonVersion: string, count: int)
    ensures var r := ValidateReceipts(h, receipts, headSha, pythonVersion, count);
            r.Ok? ==> r.value.durations == Durations(Sort(receipts, IndexLeq))
  {
  }

  /** Receipts exist for every shard exactly when no shard is empty (given usable settings). */
  lemma HonestExists(h: Hashing, nodeids: seq<string>, index: int, count: int, headSha: string, pythonVersion: string,
                     duration: Option<real>)
    requires ValidShardCount(count) && 0 <= index < count && ValidHeadSha(headSha)
    requires pythonVersion in {"3.11", "3.12"} && (duration.Some? ==> duration.value >= 0.0)
    ensures ShardReceipt(h, nodeids, index, count, headSha, pythonVersion, duration).Ok?
            <==> Normalize(nodeids).Ok? && Selected(h, Normalize(nodeids).value, index, count) != []
  {
    if Normalize(nodeids).Ok? {
      var p := Normalize(nodeids).value;
      NormalizeCanonical(nodeids);
      DigestOfCanonical(h, p);
      if Selected(h, p, index, count) != [] {
        SelectedCanonical(h, p, index, count);
        DigestOfCanonical(h, Selected(h, p, index, count));
      }
    }
  }

  lemma SelectedCanonical(h: Hashing, p: seq<string>, index: int, count: int)
    requires Canonical(p) && Selected(h, p, index, count) != []
    ensures Canonical(Selected(h, p, index, count))
  {
    var keep := (nodeid: string) => InShard(h, nodeid, count, index);
    var selected := Selected(h, p, index, count);
    FilterSorted(p, keep, StringLeq);
    FilterDistinct(p, keep);
    forall i | 0 <= i < |selected| ensures SingleLine(selected[i]) && Trimmed(selected[i]) {
      SelectedMembers(h, p, index, count, selected[i]);
      assert selected[i] in selected;
    }
  }
}
