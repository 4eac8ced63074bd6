/** The exact topology check of the parse benchmark: DAG identities, task identities, spec
    fingerprints and edges against a contract. */
module Topology {
  import opened Ordering

  datatype Task = Task(id: string, downstream: set<string>, upstream: set<string>)

  datatype Dag = Dag(tasks: seq<Task>, fingerprint: Option<string>)

  /** One entry of the contract, as loaded. */
  datatype Authority = Authority(fingerprint: Option<string>, taskIds: seq<string>, edges: seq<seq<string>>)

  type Edge = (string, string)

  /** One canonical record. */
  datatype Record = Record(dagId: string, fingerprint: Option<string>, taskIds: seq<string>, edges: seq<Edge>)

  /** A dictionary keyed by strings: its items in insertion order. */
  type Items<T> = seq<(string, T)>

  function Keys<T>(items: Items<T>): (r: seq<string>)
    ensures |r| == |items| && forall i | 0 <= i < |r| :: r[i] == items[i].0
  {
    seq(|items|, i requires 0 <= i < |items| => items[i].0)
  }

  ghost predicate IsDict<T>(items: Items<T>) {
    NoDuplicates(Keys(items))
  }

  function Get<T>(items: Items<T>, key: string): (r: T)
    requires key in Keys(items)
    ensures (key, r) in items
  {
    if items[0].0 == key then items[0].1
    else
      assert key in Keys(items[1..]) by {
        var i :| 0 <= i < |items| && Keys(items)[i] == key;
        assert Keys(items[1..])[i - 1] == key;
      }
      Get(items[1..], key)
  }

  // Canonical records.

  /** The edges that are pairs. */
  function Pairs(edges: seq<seq<string>>): seq<Edge> {
    if edges == [] then []
    else (if |edges[0]| == 2 then [(edges[0][0], edges[0][1])] else []) + Pairs(edges[1..])
  }

  function RecordOf(dagId: string, item: Authority): Record {
    Record(dagId, item.fingerprint, Sort(item.taskIds, StringLeq), Sort(Pairs(item.edges), PairLeq))
  }

  predicate RecordLeq(a: Record, b: Record) {
    StringLeq(a.dagId, b.dagId)
  }

  function Records(contract: Items<Authority>): (r: seq<Record>)
    ensures |r| == |contract|
    ensures forall i | 0 <= i < |r| :: r[i] == RecordOf(contract[i].0, contract[i].1)
  {
    seq(|contract|, i requires 0 <= i < |contract| => RecordOf(contract[i].0, contract[i].1))
  }

  /** `_contract_records` */
  function ContractRecords(contract: Items<Authority>): seq<Record> {
    Sort(Records(contract), RecordLeq)
  }

  function DagIds(records: seq<Record>): (r: seq<string>)
    ensures |r| == |records| && forall i | 0 <= i < |r| :: r[i] == records[i].dagId
  {
    seq(|records|, i requires 0 <= i < |records| => records[i].dagId)
  }

  function TaskIds(tasks: seq<Task>): (r: seq<string>)
    ensures |r| == |tasks| && forall i | 0 <= i < |r| :: r[i] == tasks[i].id
  {
    seq(|tasks|, i requires 0 <= i < |tasks| => tasks[i].id)
  }

  // Edges seen from both ends.

  predicate Declares(task: Task, e: Edge) {
    (e.0 == task.id && e.1 in task.downstream) || (e.1 == task.id && e.0 in task.upstream)
  }

  function TaskEdges(task: Task): (r: set<Edge>)
    ensures forall e :: e in r <==> Declares(task, e)
  {
    (set v | v in task.downstream :: (task.id, v)) + (set v | v in task.upstream :: (v, task.id))
  }

  function EdgeSet(tasks: seq<Task>): (r: set<Edge>)
    ensures forall e :: e in r <==> exists t :: t in tasks && Declares(t, e)
  {
    if tasks == [] then {}
    else
      var init, last := tasks[..|tasks| - 1], tasks[|tasks| - 1];
      assert tasks == init + [last];
      EdgeSet(init) + TaskEdges(last)
  }

  predicate Within(edges: set<Edge>, ids: seq<string>) {
    forall e | e in edges :: e.0 in ids && e.1 in ids
  }

  /** `_observed_edges`; None where it raises because an edge leaves the DAG. */
  method ObservedEdges(tasks: seq<Task>, ids: seq<string>) returns (r: Option<seq<Edge>>)
    ensures r.Some? <==> Within(EdgeSet(tasks), ids)
    ensures r.Some? ==> Sorted(r.value, PairLeq) && NoDuplicates(r.value) && Elements(r.value) == EdgeSet(tasks)
  {
    var edges: set<Edge> := {};
    for i := 0 to |tasks|
      invariant edges == EdgeSet(tasks[..i])
    {
      assert tasks[..i + 1][..i] == tasks[..i];
      edges := edges + (set v | v in tasks[i].downstream :: (tasks[i].id, v));
      edges := edges + (set v | v in tasks[i].upstream :: (v, tasks[i].id));
    }
    assert tasks[..|tasks|] == tasks;
    if exists e :: e in edges && (e.0 !in ids || e.1 !in ids) {
      return None;
    }
    var listed := ListOf(edges);
    SortedListing(listed, edges);
    r := Some(Sort(listed, PairLeq));
  }

  lemma SortedListing(listed: seq<Edge>, edges: set<Edge>)
    requires NoDuplicates(listed) && Elements(listed) == edges
    ensures var sorted := Sort(listed, PairLeq);
            Sorted(sorted, PairLeq) && NoDuplicates(sorted) && Elements(sorted) == edges
  {
    PairOrder();
    SortSorts(listed, PairLeq);
    var sorted := Sort(listed, PairLeq);
    SortedPairs(listed, sorted);
    hide Sort, PairLeq, TotalOrder, NoDuplicates, Sorted;
    forall e: Edge ensures e in Elements(sorted) <==> e in edges {
      assert e in sorted <==> e in Elements(sorted);
      assert e in listed <==> e in Elements(listed);
    }
  }

  // Digests.

  /** The JSON values that are digested. */
  datatype Json = Null | Text(text: string) | List(values: seq<Json>)
                | Fields(dagId: string, fingerprint: Json, taskIds: Json, edges: Json)

  /** canonical_json_sha256 */
  type JsonDigest = Json -> string

  function Texts(s: seq<string>): (r: seq<Json>)
    ensures |r| == |s| && forall i | 0 <= i < |r| :: r[i] == Text(s[i])
  {
    seq(|s|, i requires 0 <= i < |s| => Text(s[i]))
  }

  function EdgeList(edges: seq<Edge>): (r: seq<Json>)
    ensures |r| == |edges| && forall i | 0 <= i < |r| :: r[i] == List([Text(edges[i].0), Text(edges[i].1)])
  {
    seq(|edges|, i requires 0 <= i < |edges| => List([Text(edges[i].0), Text(edges[i].1)]))
  }

  function FingerprintJson(fingerprint: Option<string>): Json {
    match fingerprint case Some(text) => Text(text) case None => Null
  }

  function RecordJson(r: Record): Json {
    Fields(r.dagId, FingerprintJson(r.fingerprint), List(Texts(r.taskIds)), List(EdgeList(r.edges)))
  }

  function TaskCount(records: seq<Record>): nat {
    if records == [] then 0 else |records[0].taskIds| + TaskCount(records[1..])
  }

  /** `_normalized_records` */
  function Normalized(records: seq<Record>): seq<Record> {
    Sort(seq(|records|, i requires 0 <= i < |records| =>
               records[i].(taskIds := Sort(records[i].taskIds, StringLeq), edges := Sort(records[i].edges, PairLeq))),
         RecordLeq)
  }

  /** A column of the records beside their DAG identities. */
  function Column(records: seq<Record>, field: Record -> Json): Json {
    List(seq(|records|, i requires 0 <= i < |records| => List([Text(records[i].dagId), field(records[i])])))
  }

  datatype Summary = Summary(dagCount: nat, taskCount: nat, dagIds: string, fingerprints: string, taskIds: string,
                             edges: string, topology: string)

  /** `topology_summary` */
  function TopologySummary(records: seq<Record>, digest: JsonDigest): Summary {
    var n := Normalized(records);
    Summary(|n|, TaskCount(n),
            digest(List(Texts(DagIds(n)))),
            digest(Column(n, (r: Record) => FingerprintJson(r.fingerprint))),
            digest(Column(n, (r: Record) => List(Texts(r.taskIds)))),
            digest(Column(n, (r: Record) => List(EdgeList(r.edges)))),
            digest(List(seq(|n|, i requires 0 <= i < |n| => RecordJson(n[i])))))
  }

  // The inspection.

  datatype Error = NamespaceDiffers | EdgeOutside | NoTasks(dagId: string) | TaskIdsDiffer(dagId: string)
                 | FingerprintDiffers(dagId: string) | EdgesDiffer(dagId: string) | DigestDiffers

  /** What the inspection of one DAG raises against its record. */
  ghost function DagError(dag: Dag, item: Record): Option<Error> {
    var ids := TaskIds(dag.tasks);
    if !Within(EdgeSet(dag.tasks), ids) then Some(EdgeOutside)
    else if dag.tasks == [] then Some(NoTasks(item.dagId))
    else if !(NoDuplicates(ids) && multiset(ids) == multiset(item.taskIds)) then Some(TaskIdsDiffer(item.dagId))
    else if dag.fingerprint != item.fingerprint then Some(FingerprintDiffers(item.dagId))
    else if !(NoDuplicates(item.edges) && Elements(item.edges) == EdgeSet(dag.tasks)) then Some(EdgesDiffer(item.dagId))
    else None
  }

  /** Two sorted lists are equal when one has no duplicates and they hold the same elements. */
  lemma SameSortedEdges(a: seq<Edge>, b: seq<Edge>)
    requires Sorted(a, PairLeq) && NoDuplicates(a) && Sorted(b, PairLeq)
    ensures a == b <==> NoDuplicates(b) && Elements(a) == Elements(b)
  {
    if NoDuplicates(b) && Elements(a) == Elements(b) {
      forall x ensures x in a <==> x in b {
        assert x in a <==> x in Elements(a);
        assert x in b <==> x in Elements(b);
      }
      SameElementsSamePermutation(a, b);
      PairOrder();
      SortedUnique(a, b, PairLeq);
    }
  }

  /** The checks on one DAG. */
  method InspectDag(dag: Dag, item: Record) returns (r: Result<Record, Error>)
    requires Sorted(item.taskIds, StringLeq) && Sorted(item.edges, PairLeq)
    ensures r == match DagError(dag, item) case Some(error) => Err(error) case None => Ok(item)
  {
    hide StringLeq, PairLeq, EdgeSet, TaskIds, Sort, Sorted;
    var ids := Sort(TaskIds(dag.tasks), StringLeq);
    SortPermutes(TaskIds(dag.tasks), StringLeq);
    SortKeepsDistinct(TaskIds(dag.tasks), StringLeq);
    PermutationBasics(ids, TaskIds(dag.tasks));
    var edges := ObservedEdges(dag.tasks, ids);
    assert Within(EdgeSet(dag.tasks), ids) <==> Within(EdgeSet(dag.tasks), TaskIds(dag.tasks));
    hide Within;
    if edges.None? {
      return Err(EdgeOutside);
    }
    SameSortedEdges(edges.value, item.edges);
    DistinctCardinality(ids);
    SameSorted(TaskIds(dag.tasks), item.taskIds);
    if dag.tasks == [] {
      return Err(NoTasks(item.dagId));
    }
    if !(|ids| == |Elements(ids)| && ids == item.taskIds) {
      return Err(TaskIdsDiffer(item.dagId));
    }
    if dag.fingerprint != item.fingerprint {
      return Err(FingerprintDiffers(item.dagId));
    }
    if edges.value != item.edges {
      return Err(EdgesDiffer(item.dagId));
    }
    r := Ok(Record(item.dagId, dag.fingerprint, ids, edges.value));
  }

  lemma SameSorted(ids: seq<string>, item: seq<string>)
    requires Sorted(item, StringLeq)
    ensures Sort(ids, StringLeq) == item <==> multiset(ids) == multiset(item)
  {
    StringOrder();
    SortPermutes(ids, StringLeq);
    SortFixed(item, StringLeq);
    if multiset(ids) == multiset(item) {
      SortCanonical(ids, item, StringLeq);
    }
  }

  // The contract's records are sorted by DAG and within each DAG.

  lemma {:induction false} SortedIds(records: seq<Record>)
    ensures DagIds(Sort(records, RecordLeq)) == Sort(DagIds(records), StringLeq)
  {
    if records != [] {
      SortedIds(records[1..]);
      InsertedIds(records[0], Sort(records[1..], RecordLeq));
      assert DagIds(records)[1..] == DagIds(records[1..]);
    }
  }

  lemma {:induction false} InsertedIds(r: Record, records: seq<Record>)
    ensures DagIds(Insert(r, records, RecordLeq)) == Insert(r.dagId, DagIds(records), StringLeq)
  {
    hide StringLeq;
    if records == [] {
    } else {
      assert DagIds(records)[1..] == DagIds(records[1..]);
      if !RecordLeq(r, records[0]) {
        InsertedIds(r, records[1..]);
        assert DagIds([records[0]] + Insert(r, records[1..], RecordLeq))
            == [records[0].dagId] + DagIds(Insert(r, records[1..], RecordLeq));
      } else {
        assert DagIds([r] + records) == [r.dagId] + DagIds(records);
      }
    }
  }

  lemma RecordShape(contract: Items<Authority>, i: nat)
    requires i < |contract|
    ensures |ContractRecords(contract)| == |contract|
    ensures var item := ContractRecords(contract)[i];
            && item in Records(contract)
            && Sorted(item.taskIds, StringLeq) && Sorted(item.edges, PairLeq)
  {
    SortPermutes(Records(contract), RecordLeq);
    var item := ContractRecords(contract)[i];
    assert item in ContractRecords(contract);
    var j :| 0 <= j < |contract| && Records(contract)[j] == item;
    StringOrder();
    PairOrder();
    SortSorts(contract[j].1.taskIds, StringLeq);
    SortSorts(Pairs(contract[j].1.edges), PairLeq);
  }

  /** The first error, over the records in order. */
  ghost function FirstError(namespace: Items<Dag>, items: seq<Record>): Option<Error> {
    if items == [] then None
    else if items[0].dagId !in Keys(namespace) then Some(NamespaceDiffers)
    else
      match DagError(Get(namespace, items[0].dagId), items[0])
      case Some(error) => Some(error)
      case None => FirstError(namespace, items[1..])
  }

  lemma SameKeys<T, U>(a: Items<T>, b: Items<U>)
    requires IsDict(a) && IsDict(b)
    ensures Sort(Keys(a), StringLeq) == Sort(Keys(b), StringLeq) <==> Elements(Keys(a)) == Elements(Keys(b))
  {
    var left, right := Keys(a), Keys(b);
    SortPermutes(left, StringLeq);
    SortPermutes(right, StringLeq);
    if Elements(left) == Elements(right) {
      forall x ensures x in left <==> x in right {
        assert x in left <==> x in Elements(left);
        assert x in right <==> x in Elements(right);
      }
      SameElementsSamePermutation(left, right);
      StringOrder();
      SortCanonical(left, right, StringLeq);
    } else if Sort(left, StringLeq) == Sort(right, StringLeq) {
      assert forall x :: x in left <==> x in right;
    }
  }

  /** What the whole inspection returns: the namespace first, then the DAGs in order of their
      identity, and the summary of the contract when all agree. */
  ghost function Outcome(namespace: Items<Dag>, contract: Items<Authority>, digest: JsonDigest)
    : Result<Summary, Error>
  {
    if Elements(Keys(namespace)) != Elements(Keys(contract)) then Err(NamespaceDiffers)
    else
      match FirstError(namespace, ContractRecords(contract))
      case Some(error) => Err(error)
      case None => Ok(TopologySummary(ContractRecords(contract), digest))
  }

  /** `inspect_parse_topology`. The last comparison, of digests, never fails. */
  method InspectParseTopology(namespace: Items<Dag>, contract: Items<Authority>, digest: JsonDigest)
    returns (r: Result<Summary, Error>)
    requires IsDict(namespace) && IsDict(contract)
    ensures r == Outcome(namespace, contract, digest)
    ensures r != Err(DigestDiffers)
  {
    hide StringLeq, PairLeq, DagError, TopologySummary, ContractRecords, Get, Keys, DagIds, Sort, RecordLeq;
    var expected := ContractRecords(contract);
    ContractIds(contract);
    SameKeys(namespace, contract);
    if Sort(Keys(namespace), StringLeq) != DagIds(expected) {
      return Err(NamespaceDiffers);
    }
    var observed: seq<Record> := [];
    for i := 0 to |expected|
      invariant observed == expected[..i]
      invariant FirstError(namespace, expected) == FirstError(namespace, expected[i..])
    {
      var item := expected[i];
      InNamespace(namespace, expected, i);
      RecordShape(contract, i);
      assert expected[i..][1..] == expected[i + 1..];
      var inspected := InspectDag(Get(namespace, item.dagId), item);
      if inspected.Err? {
        NotDigest(Get(namespace, item.dagId), item);
        return Err(inspected.error);
      }
      observed := observed + [inspected.value];
    }
    assert observed == expected;
    var summary, expectedSummary := TopologySummary(observed, digest), TopologySummary(expected, digest);
    if summary != expectedSummary {
      return Err(DigestDiffers);
    }
    r := Ok(summary);
  }

  lemma ContractIds(contract: Items<Authority>)
    ensures DagIds(ContractRecords(contract)) == Sort(Keys(contract), StringLeq)
    ensures |ContractRecords(contract)| == |contract|
  {
    SortedIds(Records(contract));
    SortPermutes(Records(contract), RecordLeq);
    assert DagIds(Records(contract)) == Keys(contract);
  }

  lemma InNamespace(namespace: Items<Dag>, items: seq<Record>, i: nat)
    requires i < |items| && Sort(Keys(namespace), StringLeq) == DagIds(items)
    ensures items[i].dagId in Keys(namespace)
  {
    SortPermutes(Keys(namespace), StringLeq);
    assert DagIds(items)[i] in DagIds(items);
  }

  lemma NotDigest(dag: Dag, item: Record)
    ensures DagError(dag, item) != Some(DigestDiffers)
  {
  }

  // What acceptance means.

  /** A DAG is the one its authority describes: task identities, not empty and each once; the
      fingerprint; and the edges, as declared by either end of each, each listed once and within
      the DAG. */
  ghost predicate DagMatches(dag: Dag, item: Authority) {
    && dag.tasks != []
    && NoDuplicates(TaskIds(dag.tasks))
    && multiset(TaskIds(dag.tasks)) == multiset(item.taskIds)
    && dag.fingerprint == item.fingerprint
    && NoDuplicates(Pairs(item.edges))
    && (forall e :: e in Pairs(item.edges) <==> exists t :: t in dag.tasks && Declares(t, e))
    && (forall e | e in Pairs(item.edges) :: e.0 in item.taskIds && e.1 in item.taskIds)
  }

  lemma MatchesExactly(dag: Dag, dagId: string, item: Authority)
    ensures DagError(dag, RecordOf(dagId, item)).None? <==> DagMatches(dag, item)
  {
    var r, pairs, ids := RecordOf(dagId, item), Pairs(item.edges), TaskIds(dag.tasks);
    hide Pairs, EdgeSet, TaskIds, Sort, Declares;
    assert r.edges == Sort(pairs, PairLeq);
    SortPermutes(item.taskIds, StringLeq);
    SortedPairs(pairs, r.edges);
    var edges := EdgeSet(dag.tasks);
    SameEdges(edges, r.edges, pairs);
    assert forall e :: e in edges <==> exists t :: t in dag.tasks && Declares(t, e);
    if multiset(ids) == multiset(item.taskIds) {
      PermutationBasics(ids, item.taskIds);
    }
  }

  lemma SortedPairs(pairs: seq<Edge>, sorted: seq<Edge>)
    requires sorted == Sort(pairs, PairLeq)
    ensures forall e: Edge :: e in sorted <==> e in pairs
    ensures NoDuplicates(sorted) <==> NoDuplicates(pairs)
  {
    SortKeepsDistinct(pairs, PairLeq);
    SortPermutes(pairs, PairLeq);
    forall e: Edge ensures e in sorted <==> e in pairs {
      assert e in sorted <==> e in multiset(sorted);
      assert e in pairs <==> e in multiset(pairs);
    }
  }

  lemma SameEdges(edges: set<Edge>, sorted: seq<Edge>, pairs: seq<Edge>)
    requires forall e :: e in sorted <==> e in pairs
    ensures Elements(sorted) == edges <==> forall e :: e in pairs <==> e in edges
  {
    if Elements(sorted) == edges {
      forall e ensures e in pairs <==> e in edges {
        assert e in sorted <==> e in Elements(sorted);
      }
    }
  }

  /** The namespace is exactly what the contract describes. */
  ghost predicate Exact(namespace: Items<Dag>, contract: Items<Authority>) {
    && Elements(Keys(namespace)) == Elements(Keys(contract))
    && forall i | 0 <= i < |contract| ::
         && contract[i].0 in Keys(namespace)
         && DagMatches(Get(namespace, contract[i].0), contract[i].1)
  }

  lemma {:induction false} NoErrorExactly(namespace: Items<Dag>, items: seq<Record>)
    ensures FirstError(namespace, items).None?
            <==> forall r | r in items ::
                   r.dagId in Keys(namespace) && DagError(Get(namespace, r.dagId), r).None?
  {
    hide DagError;
    if items != [] {
      NoErrorExactly(namespace, items[1..]);
      assert items == [items[0]] + items[1..];
    }
  }

  /** Acceptance is exactness: of the DAG identities, and per DAG of its tasks, fingerprint and
      edges. */
  lemma ExactTopology(namespace: Items<Dag>, contract: Items<Authority>, digest: JsonDigest)
    requires IsDict(namespace) && IsDict(contract)
    ensures Outcome(namespace, contract, digest).Ok? <==> Exact(namespace, contract)
  {
    var records := Records(contract);
    NoErrorExactly(namespace, ContractRecords(contract));
    SortPermutes(records, RecordLeq);
    hide DagError, DagMatches, RecordOf;
    forall i | 0 <= i < |contract| && contract[i].0 in Keys(namespace)
      ensures DagError(Get(namespace, contract[i].0), records[i]).None?
              <==> DagMatches(Get(namespace, contract[i].0), contract[i].1)
    {
      MatchesExactly(Get(namespace, contract[i].0), contract[i].0, contract[i].1);
    }
    forall i | 0 <= i < |contract| ensures records[i].dagId == contract[i].0 && records[i] in records {
      RecordId(contract[i].0, contract[i].1);
    }
  }

  lemma RecordId(dagId: string, item: Authority)
    ensures RecordOf(dagId, item).dagId == dagId
  {
  }
}
