/** Which shard a node ID gets: the remainder of its hash word, and what follows from it for the
    receipts, the manifest and the items that the plugin keeps. */
module ShardResidues {
  import opened Ordering
  import opened Text
  import opened ShardPopulation
  import opened ShardReceipts
  import opened ShardAgreement
  import opened ShardRoundTrip
  import opened ShardPlugin

  /** The word of the node ID is some multiple of the count plus k. */
  ghost predicate Falls(h: Hashing, nodeid: string, count: int, k: int) {
    exists q: nat {:trigger Multiple(q, count)} :: h.word(nodeid) == Multiple(q, count) + k
  }

  function Multiple(q: nat, count: int): int {
    q * count
  }

  lemma LargerMultiple(q: nat, r: nat, count: nat)
    requires q < r
    ensures Multiple(q, count) + count <= Multiple(r, count)
  {
    assert Multiple(r, count) == Multiple(q, count) + (r - q) * count;
    assert (r - q) * count == count + (r - q - 1) * count;
  }

  lemma RemainderUnique(w: nat, count: nat, q: nat, k: nat)
    requires k < count && w == Multiple(q, count) + k
    ensures w % count == k
  {
    var r := w / count;
    assert w == Multiple(r, count) + w % count;
    hide Multiple;
    if r < q {
      LargerMultiple(r, q, count);
    } else if q < r {
      LargerMultiple(q, r, count);
    }
  }

  /** A node ID gets shard k exactly when the count is allowed, the ID is a single line, k is a shard
      and the word leaves k when divided by the count. */
  lemma ShardExactly(h: Hashing, nodeid: string, count: int, k: nat)
    ensures ShardFor(h, nodeid, count) == Ok(k)
            <==> && 2 <= count <= 64 && nodeid != "" && '\n' !in nodeid
                 && k < count && Falls(h, nodeid, count, k)
    ensures ShardFor(h, nodeid, count) == Err(ShardCountOutOfRange) <==> !(2 <= count <= 64)
    ensures ShardFor(h, nodeid, count) == Err(NodeidMalformed)
            <==> 2 <= count <= 64 && (nodeid == "" || '\n' in nodeid)
  {
    if 2 <= count <= 64 && k < count {
      var w := h.word(nodeid);
      if w % count == k {
        assert w == Multiple(w / count, count) + k;
      }
      if Falls(h, nodeid, count, k) {
        var q: nat :| w == Multiple(q, count) + k;
        RemainderUnique(w, count, q, k);
      }
    }
  }

  lemma InShardExactly(h: Hashing, nodeid: string, count: int, k: int)
    requires 2 <= count <= 64 && 0 <= k < count && SingleLine(nodeid)
    ensures InShard(h, nodeid, count, k) <==> Falls(h, nodeid, count, k)
  {
    ShardExactly(h, nodeid, count, k);
  }

  // The population.

  lemma {:induction false} StrippedMembers(nodeids: seq<string>, x: string)
    ensures x in StripAll(nodeids) <==> x != "" && exists i | 0 <= i < |nodeids| :: Strip(nodeids[i]) == x
  {
    hide Strip;
    if nodeids != [] {
      StrippedMembers(nodeids[1..], x);
      assert forall i | 0 < i < |nodeids| :: nodeids[i] == nodeids[1..][i - 1];
      assert forall i | 0 <= i < |nodeids| - 1 :: nodeids[1..][i] == nodeids[i + 1];
    }
  }

  ghost predicate Apart(nodeids: seq<string>) {
    forall i, j | 0 <= i < j < |nodeids| && Strip(nodeids[i]) != "" :: Strip(nodeids[i]) != Strip(nodeids[j])
  }

  lemma {:induction false} StrippedApart(nodeids: seq<string>)
    ensures NoDuplicates(StripAll(nodeids)) <==> Apart(nodeids)
  {
    hide Strip;
    if nodeids != [] {
      var x, rest := Strip(nodeids[0]), nodeids[1..];
      StrippedApart(rest);
      StrippedMembers(rest, x);
      FirstApart(nodeids);
      if x != "" {
        FirstDistinct(x, StripAll(rest));
      } else {
        assert [] + StripAll(rest) == StripAll(rest);
      }
      hide StripAll, NoDuplicates, Apart;
    }
  }

  lemma FirstDistinct<T>(x: T, rest: seq<T>)
    ensures NoDuplicates([x] + rest) <==> x !in rest && NoDuplicates(rest)
  {
    var s := [x] + rest;
    assert forall i | 0 <= i < |rest| :: s[i + 1] == rest[i];
    if x in rest {
      var i :| 0 <= i < |rest| && rest[i] == x;
      assert s[0] == s[i + 1];
    }
    if NoDuplicates(s) {
      forall i, j | 0 <= i < j < |rest| ensures rest[i] != rest[j] {
        assert s[i + 1] != s[j + 1];
      }
    }
  }

  lemma FirstApart(nodeids: seq<string>)
    requires nodeids != []
    ensures Apart(nodeids)
            <==> && Apart(nodeids[1..])
                 && (Strip(nodeids[0]) != "" ==>
                       !exists i | 0 <= i < |nodeids[1..]| :: Strip(nodeids[1..][i]) == Strip(nodeids[0]))
  {
    hide Strip;
    var rest := nodeids[1..];
    assert forall i | 0 <= i < |rest| :: rest[i] == nodeids[i + 1];
    assert forall i | 0 < i < |nodeids| :: nodeids[i] == rest[i - 1];
    if Apart(nodeids) {
      forall i, j | 0 <= i < j < |rest| && Strip(rest[i]) != "" ensures Strip(rest[i]) != Strip(rest[j]) {
        assert Strip(nodeids[i + 1]) != Strip(nodeids[j + 1]);
      }
    }
  }

  /** Normalising succeeds exactly when some node ID is not blank, no two of those, stripped, are
      equal, and none has a newline inside; and it gives those node IDs, stripped, in ascending order. */
  lemma NormalizesExactly(nodeids: seq<string>)
    ensures Normalize(nodeids).Ok?
            <==> && (exists i | 0 <= i < |nodeids| :: Strip(nodeids[i]) != "")
                 && Apart(nodeids)
                 && (forall i | 0 <= i < |nodeids| :: '\n' !in Strip(nodeids[i]))
    ensures Normalize(nodeids).Ok? ==>
              var p := Normalize(nodeids).value;
              && Sorted(p, StringLeq) && NoDuplicates(p)
              && forall x :: x in p <==> x != "" && exists i | 0 <= i < |nodeids| :: Strip(nodeids[i]) == x
  {
    var stripped := StripAll(nodeids);
    forall x ensures x in stripped <==> x != "" && exists i | 0 <= i < |nodeids| :: Strip(nodeids[i]) == x {
      StrippedMembers(nodeids, x);
    }
    if Normalize(nodeids).Ok? {
      NormalizeCanonical(nodeids);
      CanonicalMembers(Normalize(nodeids).value, stripped);
    }
    hide Normalize, Sorted, NoDuplicates;
    NormalizesWhen(nodeids);
  }

  lemma NormalizesWhen(nodeids: seq<string>)
    ensures Normalize(nodeids).Ok?
            <==> && (exists i | 0 <= i < |nodeids| :: Strip(nodeids[i]) != "")
                 && Apart(nodeids)
                 && (forall i | 0 <= i < |nodeids| :: '\n' !in Strip(nodeids[i]))
  {
    var stripped := StripAll(nodeids);
    StrippedApart(nodeids);
    NormalizesStripped(nodeids);
    hide Strip, StripAll, Apart, Normalize, NoDuplicates;
    forall x ensures x in stripped <==> x != "" && exists i | 0 <= i < |nodeids| :: Strip(nodeids[i]) == x {
      StrippedMembers(nodeids, x);
    }
    if stripped != [] {
      assert stripped[0] in stripped;
    }
    forall i | 0 <= i < |nodeids| && Strip(nodeids[i]) != "" ensures Strip(nodeids[i]) in stripped {
    }
    if forall i | 0 <= i < |nodeids| :: '\n' !in Strip(nodeids[i]) {
      forall x | x in stripped ensures '\n' !in x {
      }
    }
  }

  lemma CanonicalMembers(p: seq<string>, stripped: seq<string>)
    requires Canonical(p) && multiset(p) == multiset(stripped)
    ensures Sorted(p, StringLeq) && NoDuplicates(p) && forall x :: x in p <==> x in stripped
  {
    PermutationBasics(p, stripped);
  }

  lemma NormalizesStripped(nodeids: seq<string>)
    ensures var stripped := StripAll(nodeids);
            Normalize(nodeids).Ok?
            <==> stripped != [] && NoDuplicates(stripped) && forall x | x in stripped :: '\n' !in x
  {
    var stripped := StripAll(nodeids);
    var p := Sort(stripped, StringLeq);
    SortPermutes(stripped, StringLeq);
    PermutationBasics(p, stripped);
    DistinctCardinality(p);
    DistinctByCount(p);
    DistinctByCount(stripped);
    hide StripAll, Sort, NoDuplicates;
    assert AnyNewline(p) <==> exists x | x in p :: '\n' in x;
  }

  // Receipts.

  predicate FortyHexadecimal(head: string) {
    |head| == 40 && forall i | 0 <= i < 40 :: '0' <= head[i] <= '9' || 'a' <= head[i] <= 'f'
  }

  lemma HeadShaExactly(head: string)
    ensures ValidHeadSha(head) <==> FortyHexadecimal(head)
  {
    var digits := HEXADECIMAL;
    assert forall k | 0 <= k < 10 :: digits[k] == ('0' as int + k) as char && digits[k] in digits;
    assert forall k | 10 <= k < 16 :: digits[k] == ('a' as int + k - 10) as char && digits[k] in digits;
    forall c: char ensures c in digits <==> '0' <= c <= '9' || 'a' <= c <= 'f' {
      if '0' <= c <= '9' {
        assert c == digits[c as int - '0' as int];
      }
      if 'a' <= c <= 'f' {
        assert c == digits[c as int - 'a' as int + 10];
      }
    }
    hide HEXADECIMAL;
  }

  /** The members of a canonical population that a selection holds. */
  lemma SelectionExactly(h: Hashing, p: seq<string>, index: int, count: int)
    requires Canonical(p) && 2 <= count <= 64 && 0 <= index < count
    ensures forall nodeid ::
              nodeid in Selected(h, p, index, count) <==> nodeid in p && Falls(h, nodeid, count, index)
    ensures Selected(h, p, index, count) != [] ==> Canonical(Selected(h, p, index, count))
  {
    hide Selected, Falls;
    forall nodeid ensures nodeid in Selected(h, p, index, count) <==> nodeid in p && Falls(h, nodeid, count, index) {
      SelectedMembers(h, p, index, count, nodeid);
      if nodeid in p {
        CanonicalLine(p, nodeid);
        InShardExactly(h, nodeid, count, index);
      }
    }
    hide Canonical;
    if Selected(h, p, index, count) != [] {
      SelectedCanonical(h, p, index, count);
    }
  }

  lemma CanonicalLine(p: seq<string>, nodeid: string)
    requires Canonical(p) && nodeid in p
    ensures SingleLine(nodeid)
  {
    var i :| 0 <= i < |p| && p[i] == nodeid;
    assert SingleLine(p[i]);
  }

  /** When there is a receipt. */
  lemma ReceiptExactly(h: Hashing, nodeids: seq<string>, index: int, count: int, headSha: string, pythonVersion: string,
                       duration: Option<real>)
    ensures ShardReceipt(h, nodeids, index, count, headSha, pythonVersion, duration).Ok?
            <==> && Normalize(nodeids).Ok? && 2 <= count <= 64 && 0 <= index < count
                 && FortyHexadecimal(headSha) && (duration.Some? ==> duration.value >= 0.0)
                 && (pythonVersion == "3.11" || pythonVersion == "3.12")
                 && exists nodeid | nodeid in Normalize(nodeids).value :: Falls(h, nodeid, count, index)
  {
    HeadShaExactly(headSha);
    if Normalize(nodeids).Ok? && ValidShardCount(count) && 0 <= index < count {
      NormalizeCanonical(nodeids);
      var p := Normalize(nodeids).value;
      SelectionExactly(h, p, index, count);
      hide Normalize, Selected, Canonical, Falls, ValidHeadSha, FortyHexadecimal, ShardReceipt;
      if Selected(h, p, index, count) != [] {
        assert Selected(h, p, index, count)[0] in Selected(h, p, index, count);
      }
      ReceiptWhen(h, nodeids, index, count, headSha, pythonVersion, duration);
    }
  }

  lemma ReceiptWhen(h: Hashing, nodeids: seq<string>, index: int, count: int, headSha: string, pythonVersion: string,
                    duration: Option<real>)
    requires Normalize(nodeids).Ok? && ValidShardCount(count) && 0 <= index < count
    ensures ShardReceipt(h, nodeids, index, count, headSha, pythonVersion, duration).Ok?
            <==> && ValidHeadSha(headSha) && (duration.Some? ==> duration.value >= 0.0)
                 && pythonVersion in {"3.11", "3.12"} && Selected(h, Normalize(nodeids).value, index, count) != []
  {
    if ValidHeadSha(headSha) && pythonVersion in {"3.11", "3.12"} && (duration.Some? ==> duration.value >= 0.0) {
      HonestExists(h, nodeids, index, count, headSha, pythonVersion, duration);
    }
    hide Normalize, Selected, ValidHeadSha;
  }

  /** What a receipt says, field by field. */
  lemma ReceiptFields(h: Hashing, nodeids: seq<string>, index: int, count: int, headSha: string, pythonVersion: string,
                      duration: Option<real>)
    requires ShardReceipt(h, nodeids, index, count, headSha, pythonVersion, duration).Ok?
    ensures Normalize(nodeids).Ok?
    ensures var r := ShardReceipt(h, nodeids, index, count, headSha, pythonVersion, duration).value;
            var p := Normalize(nodeids).value;
            && r.headSha == Some(headSha) && r.pythonVersion == Some(pythonVersion)
            && r.shardCount == Some(count) && r.shardIndex == Some(index) && r.durationSeconds == duration
            && r.populationCount == Some(|p|) && r.populationSha256 == Some(h.digest(Lines(p)))
            && r.selectedNodeids.Some?
            && var selected := r.selectedNodeids.value;
               && Canonical(selected)
               && (forall nodeid :: nodeid in selected <==> nodeid in p && Falls(h, nodeid, count, index))
               && r.selectedCount == Some(|selected|) && r.selectedSha256 == Some(h.digest(Lines(selected)))
  {
    var r := ShardReceipt(h, nodeids, index, count, headSha, pythonVersion, duration).value;
    var p := ProducedFacts(h, r, nodeids, index, count, headSha, pythonVersion, duration);
    hide Normalize, Selected, Lines, Canonical, Falls, ValidHeadSha;
    SelectionExactly(h, p, index, count);
    DigestOfCanonical(h, Selected(h, p, index, count));
  }

  /** The text under a population digest, from its end. */
  lemma {:induction false} LinesAppend(nodeids: seq<string>, last: string)
    ensures Lines([]) == "" && Lines(nodeids + [last]) == Lines(nodeids) + last + "\n"
  {
    if nodeids == [] {
      assert Lines([last]) == last + "\n" + "";
    } else {
      assert (nodeids + [last])[1..] == nodeids[1..] + [last];
      LinesAppend(nodeids[1..], last);
      hide Lines;
      Associative(nodeids[0] + "\n", Lines(nodeids[1..]) + last, "\n");
      Associative(nodeids[0] + "\n", Lines(nodeids[1..]), last);
    }
  }

  /** The manifest of a canonical population, field by field. */
  lemma ManifestFields(h: Hashing, count: int, p: seq<string>)
    requires 2 <= count <= 64 && Canonical(p)
    ensures ManifestPayload(h, count, p).Ok?
    ensures var m := ManifestPayload(h, count, p).value;
            && m.shardCount == count && m.nodeCount == |p| && m.nodeidsSha256 == h.digest(Lines(p))
            && |m.shards| == count
            && forall k, nodeid | 0 <= k < count ::
                 nodeid in m.shards[k] <==> nodeid in p && Falls(h, nodeid, count, k)
  {
    var m := ManifestOf(h, count, p);
    hide Selected, Lines, Canonical, Falls, Digest, RefusedNodeid;
    forall k | 0 <= k < count
      ensures forall nodeid :: nodeid in m.shards[k] <==> nodeid in p && Falls(h, nodeid, count, k)
    {
      SelectionExactly(h, p, k, count);
    }
  }

  // The plugin.

  /** `part` holds the items at the positions that belong, in their order. */
  ghost predicate InOrderAt(items: seq<Item>, part: seq<Item>, belongs: set<nat>) {
    exists at: seq<nat> ::
      && |at| == |part|
      && (forall m, n | 0 <= m < n < |at| :: at[m] < at[n])
      && (forall m | 0 <= m < |at| :: at[m] < |items| && part[m] == items[at[m]])
      && (forall i: nat :: i in at <==> i in belongs)
  }

  /** The positions of the items whose word leaves index, or of the others. */
  ghost function Falling(h: Hashing, items: seq<Item>, index: int, count: int, kept: bool): set<nat> {
    set i: nat | i < |items| && (Falls(h, items[i].nodeid, count, index) <==> kept)
  }

  lemma PositionsBounded<T>(s: seq<T>, keep: T -> bool)
    ensures forall k: nat | k in Positions(s, keep) :: k < |s|
  {
  }

  lemma FilteredAt(h: Hashing, items: seq<Item>, index: int, count: int, kept: bool, keep: Item -> bool)
    requires forall i | 0 <= i < |items| :: keep(items[i]) <==> (Falls(h, items[i].nodeid, count, index) <==> kept)
    ensures InOrderAt(items, Filter(items, keep), Falling(h, items, index, count, kept))
  {
    hide Falls, Filter, Positions;
    FilterKeepsOrder(items, keep);
    PositionsBounded(items, keep);
    var at := Positions(items, keep);
    forall i: nat ensures i in at <==> i in Falling(h, items, index, count, kept) {
      if i < |items| {
        assert keep(items[i]) <==> (Falls(h, items[i].nodeid, count, index) <==> kept);
      }
    }
    hide Falling;
    AtPositions(items, Filter(items, keep), Falling(h, items, index, count, kept), at);
  }

  lemma AtPositions(items: seq<Item>, part: seq<Item>, belongs: set<nat>, at: seq<nat>)
    requires |at| == |part| && forall m, n | 0 <= m < n < |at| :: at[m] < at[n]
    requires forall m | 0 <= m < |at| :: at[m] < |items| && part[m] == items[at[m]]
    requires forall i: nat :: i in at <==> i in belongs
    ensures InOrderAt(items, part, belongs)
  {
  }

  lemma {:induction false} RefusedExactly(h: Hashing, items: seq<Item>, count: int)
    requires 2 <= count <= 64
    ensures Refused(h, items, count) == None <==> forall i | 0 <= i < |items| :: SingleLine(items[i].nodeid)
    ensures Refused(h, items, count).Some? ==> Refused(h, items, count) == Some(NodeidMalformed)
  {
    hide SingleLine;
    if items != [] {
      RefusedExactly(h, items[1..], count);
      assert forall i | 0 < i < |items| :: items[i] == items[1..][i - 1];
      assert forall i | 0 <= i < |items| - 1 :: items[1..][i] == items[i + 1];
    }
  }

  /** The hook's outcome when a setting is no number. */
  lemma HookSettings(h: Hashing, items: seq<Item>, shard: Setting, shardCount: Setting)
    requires !(shard.Number? && shardCount.Number?)
    ensures Hook(h, items, shard, shardCount)
         == if shard.Unset? && shardCount.Unset? then Ok(None)
            else if shard.Unset? || shardCount.Unset? then Err(SettingsIncomplete)
            else Err(SettingsNotIntegers)
  {
  }

  ghost predicate Usable(items: seq<Item>, index: int, count: int) {
    2 <= count <= 64 && 0 <= index < count && forall i | 0 <= i < |items| :: SingleLine(items[i].nodeid)
  }

  /** With two numbers the hook splits the items exactly when the numbers are in range, all node IDs
      are single lines and some item's word leaves the index; then it keeps exactly those items
      and deselects exactly the others, each in their order. */
  lemma HookExactly(h: Hashing, items: seq<Item>, index: int, count: int)
    ensures var outcome := Hook(h, items, Number(index), Number(count));
            && (outcome.Ok?
                <==> && Usable(items, index, count)
                     && exists i | 0 <= i < |items| :: Falls(h, items[i].nodeid, count, index))
            && (outcome == Err(ShardEmpty)
                <==> && Usable(items, index, count)
                     && forall i | 0 <= i < |items| :: !Falls(h, items[i].nodeid, count, index))
            && (outcome.Ok? ==>
                  && outcome.value.Some?
                  && InOrderAt(items, outcome.value.value.0, Falling(h, items, index, count, true))
                  && InOrderAt(items, outcome.value.value.1, Falling(h, items, index, count, false)))
  {
    hide Falls, Refused, InOrderAt, Falling, SingleLine, Kept, Dropped, Hook;
    if 2 <= count <= 64 && 0 <= index < count {
      HookInRange(h, items, index, count);
      if Usable(items, index, count) {
        forall i | 0 <= i < |items|
          ensures ItemIn(h, items[i], count, index) <==> Falls(h, items[i].nodeid, count, index)
        {
          assert SingleLine(items[i].nodeid);
          InShardExactly(h, items[i].nodeid, count, index);
        }
        KeptFalling(h, items, index, count);
      }
    } else {
      HookOutOfRange(h, items, index, count);
    }
  }

  lemma HookOutOfRange(h: Hashing, items: seq<Item>, index: int, count: int)
    requires !(2 <= count <= 64 && 0 <= index < count)
    ensures Hook(h, items, Number(index), Number(count))
         == Err(if 2 <= count <= 64 then ShardIndexOutOfRange else ShardCountOutOfRange)
  {
    hide Refused, Kept, Dropped;
  }

  lemma HookInRange(h: Hashing, items: seq<Item>, index: int, count: int)
    requires 2 <= count <= 64 && 0 <= index < count
    ensures Hook(h, items, Number(index), Number(count))
         == if !Usable(items, index, count) then Err(NodeidMalformed)
            else if Kept(h, items, index, count) == [] then Err(ShardEmpty)
            else Ok(Some((Kept(h, items, index, count), Dropped(h, items, index, count))))
  {
    RefusedExactly(h, items, count);
    hide Refused, Kept, Dropped, SingleLine;
  }

  lemma KeptFalling(h: Hashing, items: seq<Item>, index: int, count: int)
    requires forall i | 0 <= i < |items| ::
               ItemIn(h, items[i], count, index) <==> Falls(h, items[i].nodeid, count, index)
    ensures InOrderAt(items, Kept(h, items, index, count), Falling(h, items, index, count, true))
    ensures InOrderAt(items, Dropped(h, items, index, count), Falling(h, items, index, count, false))
    ensures Kept(h, items, index, count) != []
            <==> exists i | 0 <= i < |items| :: Falls(h, items[i].nodeid, count, index)
  {
    hide Falls, ItemIn, InOrderAt, Falling;
    var keep := (item: Item) => ItemIn(h, item, count, index);
    FilteredAt(h, items, index, count, true, keep);
    FilteredAt(h, items, index, count, false, (item: Item) => !ItemIn(h, item, count, index));
    var kept := Filter(items, keep);
    if kept != [] {
      FilterMember(items, keep, kept[0]);
    }
    if i: nat :| i < |items| && Falls(h, items[i].nodeid, count, index) {
      FilterMember(items, keep, items[i]);
    }
  }

  // The verifier.

  ghost predicate SameOnAll<T(!new)>(receipts: seq<Receipt>, field: Receipt -> T, value: T) {
    forall i | 0 <= i < |receipts| :: field(receipts[i]) == value
  }

  lemma IndexesOnce(receipts: seq<Receipt>, count: nat)
    requires |receipts| == count
    ensures Indexes(receipts) == ExpectedIndexes(count) <==> EachIndexOnce(receipts, count)
  {
    if Indexes(receipts) == ExpectedIndexes(count) {
      CoveringIsOnce(receipts, count);
    }
    if EachIndexOnce(receipts, count) {
      forall k: int | 0 <= k < count ensures Some(k) in Indexes(receipts) {
        var here := (r: Receipt) => r.shardIndex == Some(k);
        assert ExactlyOne(receipts, here);
        var i :| 0 <= i < |receipts| && here(receipts[i]);
        assert receipts[i] in receipts;
      }
      assert ExpectedIndexes(count) <= Indexes(receipts);
      ExpectedSize(count);
      IndexesAre(receipts);
      FullSubset(ExpectedIndexes(count), Indexes(receipts));
    }
  }

  lemma IndexesAre(receipts: seq<Receipt>)
    ensures |Indexes(receipts)| <= |receipts|
  {
    var list := IndexList(receipts);
    forall x ensures x in Elements(list) <==> x in Indexes(receipts) {
      if x in Indexes(receipts) {
        var i :| 0 <= i < |receipts| && receipts[i].shardIndex == x;
        assert list[i] == x;
      }
    }
    assert Elements(list) == Indexes(receipts);
    DistinctCardinality(list);
  }

  /** The first thing wrong with a set of receipts, in this order: the count, the number of receipts, a
      shard without exactly one receipt, a receipt of another commit, interpreter or shard count, two
      that disagree about the population, and node IDs that are no population or not as many as one. */
  lemma RefusalsInOrder(h: Hashing, receipts: seq<Receipt>, headSha: string, pythonVersion: string, count: int)
    ensures var verdict := ValidateReceipts(h, receipts, headSha, pythonVersion, count);
            if !(2 <= count <= 64) then verdict == Err(ShardCountOutOfRange)
            else if |receipts| != count then verdict == Err(ReceiptCountMismatch)
            else if !EachIndexOnce(receipts, count) then verdict == Err(ShardsNotCovered)
            else if !SameOnAll(receipts, (r: Receipt) => r.headSha, Some(headSha)) then verdict == Err(HeadShaMismatch)
            else if !SameOnAll(receipts, (r: Receipt) => r.pythonVersion, Some(pythonVersion)) then
              verdict == Err(PythonVersionMismatch)
            else if !SameOnAll(receipts, (r: Receipt) => r.shardCount, Some(count)) then
              verdict == Err(ShardCountMismatch)
            else if !SameOnAll(receipts, (r: Receipt) => (r.populationCount, r.populationSha256),
                               (receipts[0].populationCount, receipts[0].populationSha256)) then
              verdict == Err(PopulationDisagreement)
            else
              match Normalize(Concatenated(receipts))
              case Err(e) => verdict == Err(e)
              case Ok(ids) =>
                if receipts[0].populationCount != Some(|ids|) then verdict == Err(PopulationNotCovered)
                else verdict.Ok? <==> forall i | 0 <= i < |receipts| :: WellAssigned(h, receipts[i], count)
  {
    if ValidShardCount(count) && |receipts| == count {
      IndexesOnce(receipts, count);
      AllAssigned(h, receipts, count);
      assert forall i | 0 <= i < |receipts| :: receipts[i] in receipts;
    }
    hide Indexes, ExpectedIndexes, EachIndexOnce, Normalize, Concatenated, AnyMisassigned, WellAssigned, Durations;
  }
}
