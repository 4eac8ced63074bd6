/** Receipts: one per shard execution, and the verifier that accepts a complete set of them. */
module ShardReceipts {
  import opened Ordering
  import opened ShardPopulation

  /** A receipt as JSON: any field may be missing. */
  datatype Receipt = Receipt(
    headSha: Option<string>,
    pythonVersion: Option<string>,
    shardCount: Option<int>,
    shardIndex: Option<int>,
    populationCount: Option<int>,
    populationSha256: Option<string>,
    selectedCount: Option<int>,
    selectedNodeids: Option<seq<string>>,
    selectedSha256: Option<string>,
    durationSeconds: Option<real>)

  datatype Summary = Summary(populationCount: Option<int>, populationSha256: Option<string>,
                             durations: seq<Option<real>>)

  const HEXADECIMAL: string := "0123456789abcdef"

  predicate ValidHeadSha(headSha: string) {
    |headSha| == 40 && forall i | 0 <= i < |headSha| :: headSha[i] in HEXADECIMAL
  }

  /** The members of a canonical population that belong to one shard, in order. */
  function Selected(h: Hashing, population: seq<string>, index: int, count: int): seq<string> {
    Filter(population, (nodeid: string) => InShard(h, nodeid, count, index))
  }

  /** `shard_receipt` */
  function ShardReceipt(h: Hashing, nodeids: seq<string>, index: int, count: int, headSha: string,
                        pythonVersion: string, duration: Option<real>): Result<Receipt, ShardError> {
    match Normalize(nodeids)
    case Err(e) => Err(e)
    case Ok(population) =>
      if !ValidShardCount(count) then Err(ShardCountOutOfRange)
      else if index < 0 || index >= count then Err(ShardIndexOutOfRange)
      else if !ValidHeadSha(headSha) then Err(HeadShaMalformed)
      else if duration.Some? && duration.value < 0.0 then Err(NegativeDuration)
      else if pythonVersion !in {"3.11", "3.12"} then Err(PythonVersionUnsupported)
      else
        var selected := Selected(h, population, index, count);
        if selected == [] then Err(ShardEmpty)
        else
          match (Digest(h, population), Digest(h, selected))
          case (Ok(populationDigest), Ok(selectedDigest)) =>
            Ok(Receipt(Some(headSha), Some(pythonVersion), Some(count), Some(index), Some(|population|),
                       Some(populationDigest), Some(|selected|), Some(selected), Some(selectedDigest), duration))
          case (Err(e), _) => Err(e)
          case (_, Err(e)) => Err(e)
  }

  /** `receipt.get("selected_nodeids", [])` of every receipt, one after the other. */
  function Concatenated(receipts: seq<Receipt>): seq<string> {
    if receipts == [] then []
    else Concatenated(receipts[..|receipts| - 1]) + Members(receipts[|receipts| - 1])
  }

  function Members(r: Receipt): seq<string> {
    match r.selectedNodeids case Some(nodeids) => nodeids case None => []
  }

  /** Does every node ID hash to its own receipt's shard? Evaluated lazily, as any() does. */
  function Misassigned(h: Hashing, nodeids: seq<string>, index: Option<int>, count: int): Option<ShardError> {
    if nodeids == [] then None
    else
      match ShardFor(h, nodeids[0], count)
      case Err(e) => Some(e)
      case Ok(shard) =>
        if Some(shard as int) != index then Some(AssignedElsewhere) else Misassigned(h, nodeids[1..], index, count)
  }

  function AnyMisassigned(h: Hashing, receipts: seq<Receipt>, count: int): Option<ShardError> {
    if receipts == [] then None
    else
      match receipts[0].selectedNodeids
      case None => Some(MembershipMissing)
      case Some(nodeids) =>
        var found := Misassigned(h, nodeids, receipts[0].shardIndex, count);
        if found.Some? then found else AnyMisassigned(h, receipts[1..], count)
  }

  function Indexes(receipts: seq<Receipt>): set<Option<int>> {
    set r | r in receipts :: r.shardIndex
  }

  function ExpectedIndexes(count: nat): set<Option<int>> {
    set k: int | 0 <= k < count :: Some(k)
  }

  predicate IndexLeq(a: Receipt, b: Receipt) {
    a.shardIndex.Some? && b.shardIndex.Some? && a.shardIndex.value <= b.shardIndex.value
  }

  function Durations(receipts: seq<Receipt>): seq<Option<real>> {
    if receipts == [] then [] else [receipts[0].durationSeconds] + Durations(receipts[1..])
  }

  /** `validate_receipts` */
  function ValidateReceipts(h: Hashing, receipts: seq<Receipt>, headSha: string, pythonVersion: string, count: int)
    : Result<Summary, ShardError>
  {
    if !ValidShardCount(count) then Err(ShardCountOutOfRange)
    else if |receipts| != count then Err(ReceiptCountMismatch)
    else if Indexes(receipts) != ExpectedIndexes(count) then Err(ShardsNotCovered)
    else if exists r | r in receipts :: r.headSha != Some(headSha) then Err(HeadShaMismatch)
    else if exists r | r in receipts :: r.pythonVersion != Some(pythonVersion) then Err(PythonVersionMismatch)
    else if exists r | r in receipts :: r.shardCount != Some(count) then Err(ShardCountMismatch)
    else if exists r | r in receipts :: r.populationCount != receipts[0].populationCount
                                        || r.populationSha256 != receipts[0].populationSha256
    then Err(PopulationDisagreement)
    else
      match Normalize(Concatenated(receipts))
      case Err(e) => Err(e)
      case Ok(normalized) =>
        if Some(|normalized| as int) != receipts[0].populationCount then Err(PopulationNotCovered)
        else
          match AnyMisassigned(h, receipts, count)
          case Some(e) => Err(e)
          case None => Ok(Summary(receipts[0].populationCount, receipts[0].populationSha256,
                                  Durations(Sort(receipts, IndexLeq))))
  }
}
