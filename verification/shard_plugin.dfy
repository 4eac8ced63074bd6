/** The pytest plugin that deselects other shards' tests, and the manifest; both agree with
    the receipts. */
module ShardPlugin {
  import opened Ordering
  import opened Text
  import opened ShardPopulation
  import opened ShardReceipts
  import opened ShardAgreement

  /** A collected test: its node ID and which test object it is. */
  datatype Item = Item(nodeid: string, test: nat)

  /** An environment variable, as int() understands it. */
  datatype Setting = Unset | NotAnInteger | Number(value: int)

  predicate ItemIn(h: Hashing, item: Item, count: int, index: int) {
    InShard(h, item.nodeid, count, index)
  }

  /** The first item whose node ID `shard_for` refuses. */
  function Refused(h: Hashing, items: seq<Item>, count: int): Option<ShardError> {
    if items == [] then None
    else match ShardFor(h, items[0].nodeid, count) case Err(e) => Some(e) case Ok(_) => Refused(h, items[1..], count)
  }

  function Kept(h: Hashing, items: seq<Item>, index: int, count: int): seq<Item> {
    Filter(items, (item: Item) => ItemIn(h, item, count, index))
  }

  function Dropped(h: Hashing, items: seq<Item>, index: int, count: int): seq<Item> {
    Filter(items, (item: Item) => !ItemIn(h, item, count, index))
  }

  /** The outcome of the hook: the items to keep and to deselect, or None to leave all as it is. */
  function Hook(h: Hashing, items: seq<Item>, shard: Setting, shardCount: Setting)
    : Result<Option<(seq<Item>, seq<Item>)>, ShardError>
  {
    if shard.Unset? && shardCount.Unset? then Ok(None)
    else if shard.Unset? || shardCount.Unset? then Err(SettingsIncomplete)
    else if !shard.Number? || !shardCount.Number? then Err(SettingsNotIntegers)
    else
      var index, count := shard.value, shardCount.value;
      if !ValidShardCount(count) then Err(ShardCountOutOfRange)
      else if index < 0 || index >= count then Err(ShardIndexOutOfRange)
      else
        match Refused(h, items, count)
        case Some(e) => Err(e)
        case None =>
          if Kept(h, items, index, count) == [] then Err(ShardEmpty)
          else Ok(Some((Kept(h, items, index, count), Dropped(h, items, index, count))))
  }

  /** The list of collected items that pytest hands to its plugins, and what they deselect. */
  class Collection {
    var items: seq<Item>
    var deselected: seq<Item>

    constructor (items: seq<Item>)
      ensures this.items == items && deselected == []
    {
      this.items, deselected := items, [];
    }

    /** `pytest_collection_modifyitems`: the list is replaced in place, or left alone on error. */
    method ModifyItems(h: Hashing, shard: Setting, shardCount: Setting) returns (r: Result<(), ShardError>)
      modifies this
      ensures match Hook(h, old(items), shard, shardCount)
              case Err(e) => r == Err(e) && items == old(items) && deselected == old(deselected)
              case Ok(None) => r == Ok(()) && items == old(items) && deselected == old(deselected)
              case Ok(Some((kept, dropped))) => r == Ok(()) && items == kept && deselected == old(deselected) + dropped
    {
      if shard.Unset? && shardCount.Unset? {
        return Ok(());
      }
      if shard.Unset? || shardCount.Unset? {
        return Err(SettingsIncomplete);
      }
      if !shard.Number? || !shardCount.Number? {
        return Err(SettingsNotIntegers);
      }
      var index, count := shard.value, shardCount.value;
      if !ValidShardCount(count) {
        return Err(ShardCountOutOfRange);
      }
      if index < 0 || index >= count {
        return Err(ShardIndexOutOfRange);
      }
      var refused := Refused(h, items, count);
      if refused.Some? {
        return Err(refused.value);
      }
      var selected, others := Kept(h, items, index, count), Dropped(h, items, index, count);
      if selected == [] {
        return Err(ShardEmpty);
      }
      items := selected;
      deselected := deselected + others;
      r := Ok(());
    }
  }

  // Over all shards, every collected item runs once, in its original order.

  /** The positions of the kept items. */
  function Positions<T>(s: seq<T>, keep: T -> bool): (r: seq<nat>)
    ensures forall i | 0 <= i < |r| :: r[i] < |s|
  {
    if s == [] then []
    else Positions(s[..|s| - 1], keep) + if keep(s[|s| - 1]) then [|s| - 1] else []
  }

  /** Filtering keeps exactly the items that satisfy the condition, at increasing positions. */
  lemma {:induction false} FilterKeepsOrder<T>(s: seq<T>, keep: T -> bool)
    ensures |Filter(s, keep)| == |Positions(s, keep)|
    ensures forall i | 0 <= i < |Filter(s, keep)| :: Filter(s, keep)[i] == s[Positions(s, keep)[i]]
    ensures forall i, j | 0 <= i < j < |Positions(s, keep)| :: Positions(s, keep)[i] < Positions(s, keep)[j]
    ensures forall k | 0 <= k < |s| :: k in Positions(s, keep) <==> keep(s[k])
  {
    if s != [] {
      var init, last := s[..|s| - 1], s[|s| - 1];
      FilterKeepsOrder(init, keep);
      assert s == init + [last];
      FilterAppend(init, [last], keep);
      assert forall k | 0 <= k < |init| :: init[k] == s[k];
    }
  }

  function KeptPositions(h: Hashing, items: seq<Item>, index: int, count: int): seq<nat> {
    Positions(items, (item: Item) => ItemIn(h, item, count, index))
  }

  ghost predicate HookKeeps(h: Hashing, items: seq<Item>, index: int, count: int) {
    Hook(h, items, Number(index), Number(count)) ==
      Ok(Some((Kept(h, items, index, count), Dropped(h, items, index, count))))
  }

  lemma {:induction false} NoneRefused(h: Hashing, items: seq<Item>, count: int, i: nat)
    requires Refused(h, items, count) == None && i < |items|
    ensures ShardFor(h, items[i].nodeid, count).Ok?
  {
    if i > 0 {
      NoneRefused(h, items[1..], count, i - 1);
      assert items[i] == items[1..][i - 1];
    }
  }

  /** Running the hook once per shard keeps each collected item in exactly one run; within a run
      the kept items stand in their original relative order. */
  lemma EveryItemRunsOnce(h: Hashing, items: seq<Item>, count: int, i: nat)
    requires ValidShardCount(count) && i < |items|
    requires forall k: int | 0 <= k < count :: HookKeeps(h, items, k, count)
    ensures exists k: int | 0 <= k < count ::
              && i in KeptPositions(h, items, k, count)
              && forall j: int | 0 <= j < count && j != k :: i !in KeptPositions(h, items, j, count)
    ensures forall k: int | 0 <= k < count ::
              && |Kept(h, items, k, count)| == |KeptPositions(h, items, k, count)|
              && (forall m | 0 <= m < |Kept(h, items, k, count)| ::
                    Kept(h, items, k, count)[m] == items[KeptPositions(h, items, k, count)[m]])
              && (forall m, n | 0 <= m < n < |KeptPositions(h, items, k, count)| ::
                    KeptPositions(h, items, k, count)[m] < KeptPositions(h, items, k, count)[n])
  {
    assert HookKeeps(h, items, 0, count);
    NoneRefused(h, items, count, i);
    var shard := ShardFor(h, items[i].nodeid, count).value;
    forall k: int | 0 <= k < count
      ensures i in KeptPositions(h, items, k, count) <==> k == shard
    {
      FilterKeepsOrder(items, (item: Item) => ItemIn(h, item, count, k));
    }
    forall k: int | 0 <= k < count
      ensures |Kept(h, items, k, count)| == |KeptPositions(h, items, k, count)|
      ensures forall m | 0 <= m < |Kept(h, items, k, count)| ::
                Kept(h, items, k, count)[m] == items[KeptPositions(h, items, k, count)[m]]
      ensures forall m, n | 0 <= m < n < |KeptPositions(h, items, k, count)| ::
                KeptPositions(h, items, k, count)[m] < KeptPositions(h, items, k, count)[n]
    {
      FilterKeepsOrder(items, (item: Item) => ItemIn(h, item, count, k));
    }
    assert i in KeptPositions(h, items, shard, count);
  }

  // Agreement with the receipts and the manifest.

  function Nodeids(items: seq<Item>): (r: seq<string>)
    ensures |r| == |items| && forall i | 0 <= i < |r| :: r[i] == items[i].nodeid
  {
    if items == [] then [] else [items[0].nodeid] + Nodeids(items[1..])
  }

  lemma {:induction false} KeptNodeids(h: Hashing, items: seq<Item>, index: int, count: int)
    ensures Nodeids(Kept(h, items, index, count))
         == Filter(Nodeids(items), (nodeid: string) => InShard(h, nodeid, count, index))
  {
    if items != [] {
      KeptNodeids(h, items[1..], index, count);
      assert Nodeids(items)[1..] == Nodeids(items[1..]);
    }
  }

  /** `ShardManifest.payload`: the shard lists and the digest. */
  datatype Manifest = Manifest(shardCount: int, nodeCount: nat, nodeidsSha256: string, shards: seq<seq<string>>)

  function RefusedNodeid(h: Hashing, nodeids: seq<string>, count: int): Option<ShardError> {
    if nodeids == [] then None
    else match ShardFor(h, nodeids[0], count) case Err(e) => Some(e) case Ok(_) => RefusedNodeid(h, nodeids[1..], count)
  }

  function ManifestPayload(h: Hashing, count: int, nodeids: seq<string>): Result<Manifest, ShardError> {
    match RefusedNodeid(h, nodeids, count)
    case Some(e) => Err(e)
    case None =>
      match Digest(h, nodeids)
      case Err(e) => Err(e)
      case Ok(digest) =>
        Ok(Manifest(count, |nodeids|, digest,
                    seq(if count < 0 then 0 else count, (k: nat) => Selected(h, nodeids, k, count))))
  }

  lemma {:induction false} CanonicalAccepted(h: Hashing, nodeids: seq<string>, count: int)
    requires ValidShardCount(count) && AllSingleLine(nodeids)
    ensures RefusedNodeid(h, nodeids, count) == None
  {
    if nodeids != [] {
      CanonicalAccepted(h, nodeids[1..], count);
    }
  }

  lemma ManifestOf(h: Hashing, count: int, p: seq<string>) returns (m: Manifest)
    requires ValidShardCount(count) && Canonical(p)
    ensures ManifestPayload(h, count, p) == Ok(m)
    ensures m.nodeidsSha256 == h.digest(Lines(p)) && |m.shards| == count
    ensures forall k | 0 <= k < count :: m.shards[k] == Selected(h, p, k, count)
  {
    hide Selected, Lines;
    CanonicalAccepted(h, p, count);
    DigestOfCanonical(h, p);
    m := ManifestPayload(h, count, p).value;
  }

  /** The manifest of a canonical population succeeds, binds the population's digest and assigns
      every member to exactly one of its shards. */
  lemma ManifestPartitions(h: Hashing, count: int, p: seq<string>)
    requires ValidShardCount(count) && Canonical(p)
    ensures ManifestPayload(h, count, p).Ok?
    ensures var m := ManifestPayload(h, count, p).value;
            && m.nodeidsSha256 == h.digest(Lines(p)) && |m.shards| == count
            && (forall nodeid | nodeid in p :: ExactlyOne(m.shards, (shard: seq<string>) => nodeid in shard))
            && (forall k, nodeid | 0 <= k < count && nodeid in m.shards[k] :: nodeid in p)
  {
    hide Selected, Lines, ManifestPayload, Canonical, InShard;
    var m := ManifestOf(h, count, p);
    forall nodeid | nodeid in p ensures ExactlyOne(m.shards, (shard: seq<string>) => nodeid in shard) {
      var k := ShardExists(h, p, count, nodeid);
      forall j | 0 <= j < count ensures nodeid in m.shards[j] <==> j == k {
        SelectedMembers(h, p, j, count, nodeid);
      }
      var holds := (shard: seq<string>) => nodeid in shard;
      assert holds(m.shards[k]);
      assert ExactlyOne(m.shards, holds);
    }
    forall k, nodeid | 0 <= k < count && nodeid in m.shards[k] ensures nodeid in p {
      SelectedMembers(h, p, k, count, nodeid);
    }
  }

  /** For collected tests with distinct, stripped, single-line node IDs: what the hook keeps for
      a shard is, up to order, what the receipt for that shard lists and what the manifest of the
      population lists for it. */
  lemma PluginAgreement(h: Hashing, items: seq<Item>, index: int, count: int, headSha: string, pythonVersion: string,
                        duration: Option<real>)
    requires HookKeeps(h, items, index, count)
    requires NoDuplicates(Nodeids(items)) && AllSingleLine(Nodeids(items))
    requires forall i | 0 <= i < |items| :: Trimmed(items[i].nodeid)
    requires ShardReceipt(h, Nodeids(items), index, count, headSha, pythonVersion, duration).Ok?
    ensures var kept := Sort(Nodeids(Kept(h, items, index, count)), StringLeq);
            && ShardReceipt(h, Nodeids(items), index, count, headSha, pythonVersion,
                duration).value.selectedNodeids == Some(kept)
            && Normalize(Nodeids(items)).Ok?
            && ManifestPayload(h, count, Normalize(Nodeids(items)).value).Ok?
            && ManifestPayload(h, count, Normalize(Nodeids(items)).value).value.shards[index] == kept
  {
    hide Lines, Canonical, Selected, Normalize, ManifestPayload, ShardReceipt, InShard, Sort;
    var ids := Nodeids(items);
    HookOfSomething(h, items, index, count);
    NormalizeClean(ids);
    NormalizeCanonical(ids);
    var p := Sort(ids, StringLeq);
    SortPermutes(ids, StringLeq);
    KeptNodeids(h, items, index, count);
    SelectedSorted(h, p, ids, index, count);
    var m := ManifestOf(h, count, p);
    var q := ProducedFacts(h, ShardReceipt(h, ids, index, count, headSha, pythonVersion, duration).value, ids, index,
        count,
                           headSha, pythonVersion, duration);
  }

  lemma HookOfSomething(h: Hashing, items: seq<Item>, index: int, count: int)
    requires HookKeeps(h, items, index, count)
    ensures items != [] && ValidShardCount(count) && 0 <= index < count
  {
    assert Kept(h, [], index, count) == [];
  }

  /** Selecting from the sorted population is sorting what is selected. */
  lemma SelectedSorted(h: Hashing, p: seq<string>, ids: seq<string>, index: int, count: int)
    requires Canonical(p) && multiset(p) == multiset(ids)
    ensures Selected(h, p, index, count)
         == Sort(Filter(ids, (nodeid: string) => InShard(h, nodeid, count, index)), StringLeq)
  {
    var keep := (nodeid: string) => InShard(h, nodeid, count, index);
    FilterSorted(p, keep, StringLeq);
    FilterPermutes(p, ids, keep);
    StringOrder();
    SortFixed(Filter(p, keep), StringLeq);
    SortCanonical(Filter(p, keep), Filter(ids, keep), StringLeq);
  }

  // Node IDs with white space around them: the hook hashes them as they are, the receipts hash
  // them stripped.

  predicate SameShard(h: Hashing, nodeid: string, count: int) {
    ShardFor(h, nodeid, count) == ShardFor(h, Strip(nodeid), count)
  }

  function KeptIds(h: Hashing, ids: seq<string>, index: int, count: int): seq<string> {
    Filter(ids, (nodeid: string) => InShard(h, nodeid, count, index))
  }

  lemma {:induction false} StripKept(h: Hashing, ids: seq<string>, index: int, count: int)
    requires forall i | 0 <= i < |ids| && Strip(ids[i]) != "" :: SameShard(h, ids[i], count)
    ensures StripAll(KeptIds(h, ids, index, count)) == KeptIds(h, StripAll(ids), index, count)
  {
    hide ShardFor, Strip;
    if ids != [] {
      StripKept(h, ids[1..], index, count);
      var rest, kept, stripped := ids[1..], KeptIds(h, ids[1..], index, count), StripAll(ids[1..]);
      assert ([ids[0]] + kept)[1..] == kept && ([Strip(ids[0])] + stripped)[1..] == stripped;
      assert KeptIds(h, ids, index, count) == if InShard(h, ids[0], count, index) then [ids[0]] + kept else kept;
      if Strip(ids[0]) == "" {
        assert StripAll(ids) == stripped;
        assert StripAll([ids[0]] + kept) == StripAll(kept);
      } else {
        assert StripAll(ids) == [Strip(ids[0])] + stripped;
        assert StripAll([ids[0]] + kept) == [Strip(ids[0])] + StripAll(kept);
        assert SameShard(h, ids[0], count);
      }
    }
  }

  lemma {:induction false} StrippedMember(ids: seq<string>, i: nat)
    requires i < |ids| && Strip(ids[i]) != ""
    ensures Strip(ids[i]) in StripAll(ids)
  {
    hide Strip;
    if i > 0 {
      StrippedMember(ids[1..], i - 1);
    }
  }

  /** What the hook keeps for every shard is, stripped and up to order, what that shard's receipt
      lists, exactly when no collected node ID changes shard by being stripped. */
  lemma AgreementExactly(h: Hashing, ids: seq<string>, count: int)
    requires ValidShardCount(count) && AllSingleLine(ids) && Normalize(ids).Ok?
    ensures (forall index: int | 0 <= index < count ::
               multiset(StripAll(KeptIds(h, ids, index, count)))
               == multiset(Selected(h, Normalize(ids).value, index, count)))
            <==> forall i | 0 <= i < |ids| && Strip(ids[i]) != "" :: SameShard(h, ids[i], count)
  {
    var p := Normalize(ids).value;
    NormalizeCanonical(ids);
    hide Normalize, Canonical, StripAll, ShardFor, Strip;
    if forall i | 0 <= i < |ids| && Strip(ids[i]) != "" :: SameShard(h, ids[i], count) {
      forall index: int | 0 <= index < count
        ensures multiset(StripAll(KeptIds(h, ids, index, count))) == multiset(Selected(h, p, index, count))
      {
        StripKept(h, ids, index, count);
        FilterPermutes(p, StripAll(ids), (nodeid: string) => InShard(h, nodeid, count, index));
      }
    }
    if forall index: int | 0 <= index < count ::
         multiset(StripAll(KeptIds(h, ids, index, count))) == multiset(Selected(h, p, index, count)) {
      forall i | 0 <= i < |ids| && Strip(ids[i]) != "" ensures SameShard(h, ids[i], count) {
        KeptAndListed(h, ids, p, count, i);
      }
    }
  }

  lemma KeptAndListed(h: Hashing, ids: seq<string>, p: seq<string>, count: int, i: nat)
    requires ValidShardCount(count) && i < |ids| && SingleLine(ids[i]) && Strip(ids[i]) != ""
    requires forall index: int | 0 <= index < count ::
               multiset(StripAll(KeptIds(h, ids, index, count))) == multiset(Selected(h, p, index, count))
    ensures SameShard(h, ids[i], count)
  {
    var index: int := ShardFor(h, ids[i], count).value;
    assert 0 <= index < count && InShard(h, ids[i], count, index);
    var kept := KeptIds(h, ids, index, count);
    FilterMember(ids, (nodeid: string) => InShard(h, nodeid, count, index), ids[i]);
    var k :| 0 <= k < |kept| && kept[k] == ids[i];
    StrippedMember(kept, k);
    assert Strip(ids[i]) in multiset(StripAll(kept));
    SelectedMembers(h, p, index, count, Strip(ids[i]));
    assert Strip(ids[i]) in multiset(Selected(h, p, index, count));
  }

  /** A padded node ID that the hook keeps in shard 1 and the receipts list for shard 0, under every
      hash that puts " a" and "a" there, as SHA-256 does. */
  lemma PaddingDisagrees(h: Hashing)
    requires h.word(" a") % 2 == 1 && h.word("a") % 2 == 0
    ensures var item := Item(" a", 0);
            && Hook(h, [item], Number(0), Number(2)) == Err(ShardEmpty)
            && Hook(h, [item], Number(1), Number(2)) == Ok(Some(([item], [])))
            && Normalize([" a"]) == Ok(["a"])
            && Selected(h, ["a"], 0, 2) == ["a"] && Selected(h, ["a"], 1, 2) == []
  {
    var padded, plain := " a", "a";
    assert padded[1..] == plain && StripLeft(padded) == plain && Strip(padded) == plain;
    assert padded[0] == ' ' && '\n' !in padded && '\n' !in plain;
    assert StripAll([padded]) == [plain] && Elements([plain]) == {plain};
    assert ShardFor(h, padded, 2) == Ok(1) && ShardFor(h, plain, 2) == Ok(0);
    hide ShardFor, Strip, StripLeft;
    var item := Item(padded, 0);
    OneItem(h, item, 0);
    OneItem(h, item, 1);
    FilterSingle(plain, (nodeid: string) => InShard(h, nodeid, 2, 0));
    FilterSingle(plain, (nodeid: string) => InShard(h, nodeid, 2, 1));
  }

  lemma FilterSingle<T>(x: T, keep: T -> bool)
    ensures Filter([x], keep) == if keep(x) then [x] else []
  {
    assert [x][1..] == [];
  }

  lemma OneItem(h: Hashing, item: Item, index: int)
    requires ShardFor(h, item.nodeid, 2).Ok?
    ensures Refused(h, [item], 2) == None
    ensures Kept(h, [item], index, 2) == if ItemIn(h, item, 2, index) then [item] else []
    ensures Dropped(h, [item], index, 2) == if ItemIn(h, item, 2, index) then [] else [item]
  {
    FilterSingle(item, (it: Item) => ItemIn(h, it, 2, index));
    FilterSingle(item, (it: Item) => !ItemIn(h, it, 2, index));
  }
}
