/** The topology authority made from a DAG spec, which specs any parse can satisfy, and what equal
    topology digests mean. */
module TopologyAuthority {
  import opened Ordering
  import opened Topology

  const RUNTIME_SUFFIX := "__dpone_runtime"

  /** A node of a spec; a field is None unless it is a string. */
  datatype Node = Node(id: Option<string>, workload: Option<string>)

  /** A DAG spec; a field is None unless it has the type asked for. An edge is the text of its two
      ends, or None where it is not an object. */
  datatype Spec = Spec(dagId: Option<string>, nodes: Option<seq<Node>>, edges: Option<seq<Option<Edge>>>,
                       fingerprint: Option<string>)

  datatype RecordError = Malformed | NodesMalformed | EdgeOutsideDag

  predicate Named(node: Node) {
    node.id.Some? && node.workload.Some?
  }

  function TaskOf(node: Node): string
    requires Named(node)
  {
    node.workload.value + RUNTIME_SUFFIX
  }

  /** Every node has an identity of its own and a workload. */
  ghost predicate ProperNodes(nodes: seq<Node>) {
    && (forall i | 0 <= i < |nodes| :: Named(nodes[i]))
    && (forall i, j | 0 <= i < j < |nodes| :: nodes[i].id != nodes[j].id)
  }

  ghost predicate HasNode(nodes: seq<Node>, id: string) {
    exists i | 0 <= i < |nodes| :: nodes[i].id == Some(id)
  }

  ghost predicate ProperEdge(nodes: seq<Node>, edge: Option<Edge>) {
    edge.Some? && HasNode(nodes, edge.value.0) && HasNode(nodes, edge.value.1)
  }

  ghost function TaskNamed(nodes: seq<Node>, id: string): string
    requires ProperNodes(nodes) && HasNode(nodes, id)
  {
    var i :| 0 <= i < |nodes| && nodes[i].id == Some(id);
    TaskOf(nodes[i])
  }

  ghost predicate ProperSpec(spec: Spec) {
    && spec.dagId.Some? && spec.nodes.Some? && spec.edges.Some? && spec.fingerprint.Some?
    && ProperNodes(spec.nodes.value)
    && forall i | 0 <= i < |spec.edges.value| :: ProperEdge(spec.nodes.value, spec.edges.value[i])
  }

  ghost function SpecTasks(nodes: seq<Node>): (r: seq<string>)
    requires ProperNodes(nodes)
    ensures |r| == |nodes| && forall i | 0 <= i < |r| :: r[i] == TaskOf(nodes[i])
  {
    seq(|nodes|, i requires 0 <= i < |nodes| => TaskOf(nodes[i]))
  }

  /** The tasks at the two ends of an edge. */
  ghost function TaskEdge(nodes: seq<Node>, edge: Option<Edge>): Edge
    requires ProperNodes(nodes) && ProperEdge(nodes, edge)
  {
    (TaskNamed(nodes, edge.value.0), TaskNamed(nodes, edge.value.1))
  }

  ghost function SpecEdges(nodes: seq<Node>, edges: seq<Option<Edge>>): (r: seq<Edge>)
    requires ProperNodes(nodes) && forall i | 0 <= i < |edges| :: ProperEdge(nodes, edges[i])
    ensures |r| == |edges| && forall i | 0 <= i < |r| :: r[i] == TaskEdge(nodes, edges[i])
  {
    seq(|edges|, i requires 0 <= i < |edges| => TaskEdge(nodes, edges[i]))
  }

  function Lists(edges: seq<Edge>): (r: seq<seq<string>>)
    ensures |r| == |edges| && forall i | 0 <= i < |r| :: r[i] == [edges[i].0, edges[i].1]
  {
    seq(|edges|, i requires 0 <= i < |edges| => [edges[i].0, edges[i].1])
  }

  lemma {:induction false} PairsOfLists(edges: seq<Edge>)
    ensures Pairs(Lists(edges)) == edges
  {
    if edges != [] {
      PairsOfLists(edges[1..]);
      assert Lists(edges)[1..] == Lists(edges[1..]);
    }
  }

  /** The authority of a proper spec. */
  ghost function AuthorityOf(spec: Spec): Authority
    requires ProperSpec(spec)
  {
    var nodes := spec.nodes.value;
    Authority(spec.fingerprint, Sort(SpecTasks(nodes), StringLeq),
              Lists(Sort(SpecEdges(nodes, spec.edges.value), PairLeq)))
  }

  /** The keys of the dictionary of tasks, over the nodes read so far: as many as there are nodes
      exactly when the nodes are proper. */
  ghost predicate ReadKeys(nodes: seq<Node>, tasks: map<string, string>) {
    && (forall id :: id in tasks <==> exists i | 0 <= i < |nodes| :: Named(nodes[i]) && nodes[i].id == Some(id))
    && |tasks| <= |nodes|
    && (|tasks| == |nodes| <==> ProperNodes(nodes))
  }

  /** Its values, in insertion order, when the nodes are proper. */
  ghost predicate ReadValues(nodes: seq<Node>, tasks: map<string, string>, values: seq<string>) {
    ProperNodes(nodes) ==>
      values == SpecTasks(nodes)
      && forall i | 0 <= i < |nodes| :: nodes[i].id.value in tasks && tasks[nodes[i].id.value] == TaskOf(nodes[i])
  }

  lemma ReadUnnamed(nodes: seq<Node>, tasks: map<string, string>, values: seq<string>, node: Node)
    requires ReadKeys(nodes, tasks) && !Named(node)
    ensures ReadKeys(nodes + [node], tasks) && ReadValues(nodes + [node], tasks, values)
  {
    var more := nodes + [node];
    assert more[|nodes|] == node && forall i | 0 <= i < |nodes| :: more[i] == nodes[i];
    assert !ProperNodes(more);
  }

  lemma ReadAgain(nodes: seq<Node>, tasks: map<string, string>, values: seq<string>, node: Node, task: string)
    requires ReadKeys(nodes, tasks) && Named(node) && node.id.value in tasks
    ensures ReadKeys(nodes + [node], tasks[node.id.value := task])
    ensures ReadValues(nodes + [node], tasks[node.id.value := task], values)
  {
    var more, id := nodes + [node], node.id.value;
    assert more[|nodes|] == node && forall i | 0 <= i < |nodes| :: more[i] == nodes[i];
    var i :| 0 <= i < |nodes| && Named(nodes[i]) && nodes[i].id == Some(id);
    assert more[i].id == more[|nodes|].id;
    assert !ProperNodes(more);
    assert tasks[id := task].Keys == tasks.Keys;
    assert |tasks[id := task]| == |tasks|;
  }

  lemma NewIsProper(nodes: seq<Node>, tasks: map<string, string>, node: Node)
    requires ReadKeys(nodes, tasks) && Named(node) && node.id.value !in tasks
    ensures ProperNodes(nodes + [node]) <==> ProperNodes(nodes)
  {
    var more := nodes + [node];
    assert more[|nodes|] == node && forall i | 0 <= i < |nodes| :: more[i] == nodes[i];
    if ProperNodes(nodes) {
      forall i | 0 <= i < |nodes| ensures nodes[i].id != node.id {
        assert Named(nodes[i]);
      }
    }
  }

  lemma NewKey(nodes: seq<Node>, tasks: map<string, string>, node: Node, task: string)
    requires ReadKeys(nodes, tasks) && Named(node) && node.id.value !in tasks
    ensures ReadKeys(nodes + [node], tasks[node.id.value := task])
  {
    NewIsProper(nodes, tasks, node);
    hide ProperNodes;
    var more, id := nodes + [node], node.id.value;
    var after := tasks[id := task];
    assert more[|nodes|] == node && forall i | 0 <= i < |nodes| :: more[i] == nodes[i];
    assert |after| == |tasks| + 1 by { assert after.Keys == tasks.Keys + {id}; }
    forall other ensures other in after <==> exists i | 0 <= i < |more| :: Named(more[i]) && more[i].id == Some(other) {
      NewIdentity(nodes, node, other);
    }
  }

  lemma NewIdentity(nodes: seq<Node>, node: Node, id: string)
    requires Named(node)
    ensures var more := nodes + [node];
            (exists i | 0 <= i < |more| :: Named(more[i]) && more[i].id == Some(id))
            <==> node.id == Some(id) || exists i | 0 <= i < |nodes| :: Named(nodes[i]) && nodes[i].id == Some(id)
  {
    var more := nodes + [node];
    assert more[|nodes|] == node;
    if i :| 0 <= i < |nodes| && Named(nodes[i]) && nodes[i].id == Some(id) {
      assert more[i] == nodes[i];
    }
  }

  lemma NewValue(nodes: seq<Node>, tasks: map<string, string>, values: seq<string>, node: Node)
    requires ReadKeys(nodes, tasks) && ReadValues(nodes, tasks, values) && Named(node) && node.id.value !in tasks
    ensures ReadValues(nodes + [node], tasks[node.id.value := TaskOf(node)], values + [TaskOf(node)])
  {
    var more := nodes + [node];
    NewIsProper(nodes, tasks, node);
    assert more[|nodes|] == node && forall i | 0 <= i < |nodes| :: more[i] == nodes[i];
    if ProperNodes(more) {
      assert SpecTasks(more) == SpecTasks(nodes) + [TaskOf(node)];
    }
  }

  lemma ReadNothing()
    ensures ReadKeys([], map[]) && ReadValues([], map[], [])
  {
  }

  /** The dictionary of tasks by node identity, over the nodes that have both fields. */
  method ReadTasks(nodes: seq<Node>) returns (tasks: map<string, string>, values: seq<string>)
    ensures ReadKeys(nodes, tasks) && ReadValues(nodes, tasks, values)
  {
    tasks, values := map[], [];
    ReadNothing();
    assert nodes[..0] == [];
    hide ReadKeys, ReadValues;
    for i := 0 to |nodes|
      invariant ReadKeys(nodes[..i], tasks) && ReadValues(nodes[..i], tasks, values)
    {
      var node := nodes[i];
      assert nodes[..i + 1] == nodes[..i] + [node];
      if !Named(node) {
        ReadUnnamed(nodes[..i], tasks, values, node);
      } else if node.id.value in tasks {
        ReadAgain(nodes[..i], tasks, values, node, TaskOf(node));
        tasks := tasks[node.id.value := TaskOf(node)];
      } else {
        NewKey(nodes[..i], tasks, node, TaskOf(node));
        NewValue(nodes[..i], tasks, values, node);
        tasks, values := tasks[node.id.value := TaskOf(node)], values + [TaskOf(node)];
      }
    }
    assert nodes[..|nodes|] == nodes;
  }

  /** The tasks at the ends of every edge; None where an end is not a node. */
  method DeclareEdges(nodes: seq<Node>, tasks: map<string, string>, ghost values: seq<string>, edges: seq<Option<Edge>>)
    returns (r: Option<seq<Edge>>)
    requires ReadKeys(nodes, tasks) && ReadValues(nodes, tasks, values) && ProperNodes(nodes)
    ensures r.Some? <==> forall k | 0 <= k < |edges| :: ProperEdge(nodes, edges[k])
    ensures r.Some? ==> r.value == SpecEdges(nodes, edges)
  {
    hide ReadKeys, ReadValues, ProperNodes, HasNode, TaskNamed;
    var declared: seq<Edge> := [];
    for i := 0 to |edges|
      invariant forall k | 0 <= k < i :: ProperEdge(nodes, edges[k])
      invariant declared == SpecEdges(nodes, edges[..i])
    {
      var edge := edges[i];
      if edge.Some? {
        TaskFound(nodes, tasks, values, edge.value.0);
        TaskFound(nodes, tasks, values, edge.value.1);
      }
      if edge.None? || edge.value.0 !in tasks || edge.value.1 !in tasks {
        assert !ProperEdge(nodes, edges[i]);
        return None;
      }
      assert edges[..i + 1] == edges[..i] + [edge];
      declared := declared + [(tasks[edge.value.0], tasks[edge.value.1])];
    }
    assert edges[..|edges|] == edges;
    r := Some(declared);
  }

  /** `_topology_record` */
  method TopologyRecord(spec: Spec) returns (r: Result<(string, Authority), RecordError>)
    ensures r.Ok? <==> ProperSpec(spec)
    ensures r.Ok? ==> r.value == (spec.dagId.value, AuthorityOf(spec))
    ensures r == Err(Malformed)
            <==> spec.dagId.None? || spec.nodes.None? || spec.edges.None? || spec.fingerprint.None?
    ensures r == Err(NodesMalformed) ==> !ProperNodes(spec.nodes.value)
    ensures r == Err(EdgeOutsideDag) ==> ProperNodes(spec.nodes.value)
  {
    hide ReadKeys, ReadValues, ProperNodes, ProperEdge, StringLeq, PairLeq, Sort;
    if spec.dagId.None? || spec.nodes.None? || spec.edges.None? || spec.fingerprint.None? {
      return Err(Malformed);
    }
    var nodes := spec.nodes.value;
    var tasks, values := ReadTasks(nodes);
    Counted(nodes, tasks, values);
    if |tasks| != |nodes| {
      return Err(NodesMalformed);
    }
    var declared := DeclareEdges(nodes, tasks, values, spec.edges.value);
    if declared.None? {
      return Err(EdgeOutsideDag);
    }
    r := Ok((spec.dagId.value,
             Authority(spec.fingerprint, Sort(values, StringLeq), Lists(Sort(declared.value, PairLeq)))));
  }

  lemma Counted(nodes: seq<Node>, tasks: map<string, string>, values: seq<string>)
    requires ReadKeys(nodes, tasks) && ReadValues(nodes, tasks, values)
    ensures |tasks| == |nodes| <==> ProperNodes(nodes)
    ensures ProperNodes(nodes) ==> values == SpecTasks(nodes)
  {
  }

  lemma TaskFound(nodes: seq<Node>, tasks: map<string, string>, values: seq<string>, id: string)
    requires ReadKeys(nodes, tasks) && ReadValues(nodes, tasks, values) && ProperNodes(nodes)
    ensures id in tasks <==> HasNode(nodes, id)
    ensures id in tasks ==> tasks[id] == TaskNamed(nodes, id)
  {
    if HasNode(nodes, id) {
      var i :| 0 <= i < |nodes| && nodes[i].id == Some(id);
      assert Named(nodes[i]);
    }
  }

  // Which authorities a parse can satisfy.

  function DagOf(item: Authority): Dag {
    Dag(seq(|item.taskIds|, i requires 0 <= i < |item.taskIds| => TaskFor(item, item.taskIds[i])), item.fingerprint)
  }

  function TaskFor(item: Authority, id: string): Task {
    Task(id, set e | e in Pairs(item.edges) && e.0 == id :: e.1, {})
  }

  ghost predicate Satisfiable(item: Authority) {
    exists dag :: DagMatches(dag, item)
  }

  /** Some DAG matches an authority exactly when its tasks are not empty and each is listed once,
      and its edges are within them and each listed once. */
  lemma SatisfiableExactly(item: Authority)
    ensures Satisfiable(item)
            <==> && item.taskIds != [] && NoDuplicates(item.taskIds) && NoDuplicates(Pairs(item.edges))
                 && forall e | e in Pairs(item.edges) :: e.0 in item.taskIds && e.1 in item.taskIds
  {
    if Satisfiable(item) {
      var dag :| DagMatches(dag, item);
      PermutationBasics(TaskIds(dag.tasks), item.taskIds);
      DistinctByCount(TaskIds(dag.tasks));
      DistinctByCount(item.taskIds);
    }
    if && item.taskIds != [] && NoDuplicates(item.taskIds) && NoDuplicates(Pairs(item.edges))
       && forall e | e in Pairs(item.edges) :: e.0 in item.taskIds && e.1 in item.taskIds {
      var dag := DagOf(item);
      assert TaskIds(dag.tasks) == item.taskIds;
      forall e ensures e in Pairs(item.edges) <==> exists t :: t in dag.tasks && Declares(t, e) {
        DeclaredOnce(item, e);
      }
      assert DagMatches(dag, item);
    }
  }

  lemma DeclaredOnce(item: Authority, e: Edge)
    requires e in Pairs(item.edges) ==> e.0 in item.taskIds
    ensures e in Pairs(item.edges) <==> exists t :: t in DagOf(item).tasks && Declares(t, e)
  {
    var dag := DagOf(item);
    if e in Pairs(item.edges) {
      var i :| 0 <= i < |item.taskIds| && item.taskIds[i] == e.0;
      assert dag.tasks[i] in dag.tasks && Declares(dag.tasks[i], e);
    }
    if t :| t in dag.tasks && Declares(t, e) {
      var i :| 0 <= i < |dag.tasks| && dag.tasks[i] == t;
    }
  }

  /** A spec can be satisfied exactly when it has nodes, no two of them on one workload, and no
      edge twice. */
  lemma SatisfiableSpec(spec: Spec)
    requires ProperSpec(spec)
    ensures Satisfiable(AuthorityOf(spec))
            <==> && spec.nodes.value != []
                 && (forall i, j | 0 <= i < j < |spec.nodes.value| ::
                       spec.nodes.value[i].workload != spec.nodes.value[j].workload)
                 && NoDuplicates(spec.edges.value)
  {
    var nodes, edges := spec.nodes.value, spec.edges.value;
    var item := AuthorityOf(spec);
    SatisfiableExactly(item);
    TasksDistinct(nodes);
    EdgesKept(spec);
    if NoDuplicates(SpecTasks(nodes)) {
      EdgesDistinct(nodes, edges);
    }
  }

  lemma TasksDistinct(nodes: seq<Node>)
    requires ProperNodes(nodes)
    ensures NoDuplicates(SpecTasks(nodes))
            <==> forall i, j | 0 <= i < j < |nodes| :: nodes[i].workload != nodes[j].workload
  {
    forall i, j | 0 <= i < j < |nodes|
      ensures SpecTasks(nodes)[i] == SpecTasks(nodes)[j] <==> nodes[i].workload == nodes[j].workload
    {
      SuffixCancels(nodes[i].workload.value, nodes[j].workload.value);
    }
  }

  lemma SuffixCancels(a: string, b: string)
    ensures a + RUNTIME_SUFFIX == b + RUNTIME_SUFFIX <==> a == b
  {
    if a + RUNTIME_SUFFIX == b + RUNTIME_SUFFIX {
      assert |a| == |b|;
      assert a == (a + RUNTIME_SUFFIX)[..|a|] == (b + RUNTIME_SUFFIX)[..|b|] == b;
    }
  }

  /** The authority lists the spec's tasks and edges, and its edges stay within its tasks. */
  lemma EdgesKept(spec: Spec)
    requires ProperSpec(spec)
    ensures var item := AuthorityOf(spec);
            var tasks, edges := SpecTasks(spec.nodes.value), SpecEdges(spec.nodes.value, spec.edges.value);
            && (item.taskIds == [] <==> spec.nodes.value == [])
            && (NoDuplicates(item.taskIds) <==> NoDuplicates(tasks))
            && (NoDuplicates(Pairs(item.edges)) <==> NoDuplicates(edges))
            && forall e | e in Pairs(item.edges) :: e.0 in item.taskIds && e.1 in item.taskIds
  {
    var item := AuthorityOf(spec);
    var tasks, edges := SpecTasks(spec.nodes.value), SpecEdges(spec.nodes.value, spec.edges.value);
    SortPermutes(tasks, StringLeq);
    SortKeepsDistinct(tasks, StringLeq);
    PairsOfLists(Sort(edges, PairLeq));
    SortedPairs(edges, Sort(edges, PairLeq));
    forall e | e in Pairs(item.edges) ensures e.0 in item.taskIds && e.1 in item.taskIds {
      assert e in edges;
      var i :| 0 <= i < |edges| && edges[i] == e;
      NamedTask(spec.nodes.value, spec.edges.value[i].value.0);
      NamedTask(spec.nodes.value, spec.edges.value[i].value.1);
    }
  }

  lemma NamedTask(nodes: seq<Node>, id: string)
    requires ProperNodes(nodes) && HasNode(nodes, id)
    ensures TaskNamed(nodes, id) in SpecTasks(nodes)
  {
    var i :| 0 <= i < |nodes| && nodes[i].id == Some(id);
    assert SpecTasks(nodes)[i] == TaskNamed(nodes, id);
  }

  lemma SameTaskSameNode(nodes: seq<Node>, a: string, b: string)
    requires ProperNodes(nodes) && NoDuplicates(SpecTasks(nodes)) && HasNode(nodes, a) && HasNode(nodes, b)
    ensures TaskNamed(nodes, a) == TaskNamed(nodes, b) <==> a == b
  {
    var i :| 0 <= i < |nodes| && nodes[i].id == Some(a);
    var j :| 0 <= j < |nodes| && nodes[j].id == Some(b);
    assert SpecTasks(nodes)[i] == TaskNamed(nodes, a) && SpecTasks(nodes)[j] == TaskNamed(nodes, b);
    if TaskNamed(nodes, a) == TaskNamed(nodes, b) {
      DistinctIndex(SpecTasks(nodes), i, j);
    }
  }

  lemma EdgesDistinct(nodes: seq<Node>, edges: seq<Option<Edge>>)
    requires ProperNodes(nodes) && NoDuplicates(SpecTasks(nodes))
    requires forall i | 0 <= i < |edges| :: ProperEdge(nodes, edges[i])
    ensures NoDuplicates(SpecEdges(nodes, edges)) <==> NoDuplicates(edges)
  {
    var mapped := SpecEdges(nodes, edges);
    forall i, j | 0 <= i < j < |edges| ensures mapped[i] == mapped[j] <==> edges[i] == edges[j] {
      SameTaskSameNode(nodes, edges[i].value.0, edges[j].value.0);
      SameTaskSameNode(nodes, edges[i].value.1, edges[j].value.1);
    }
  }

  /** A contract that holds the authority of a spec with two nodes on one workload is never met. */
  lemma SharedWorkloadNeverAccepted(namespace: Items<Dag>, contract: Items<Authority>, digest: JsonDigest,
                                    k: nat, spec: Spec, i: nat, j: nat)
    requires IsDict(namespace) && IsDict(contract)
    requires ProperSpec(spec) && k < |contract| && contract[k].1 == AuthorityOf(spec)
    requires i < j < |spec.nodes.value| && spec.nodes.value[i].workload == spec.nodes.value[j].workload
    ensures Outcome(namespace, contract, digest).Err?
  {
    ExactTopology(namespace, contract, digest);
    SatisfiableSpec(spec);
    assert contract[k].0 in Keys(namespace) ==> !DagMatches(Get(namespace, contract[k].0), contract[k].1);
  }

  /** Nodes a and b, both on workload w. */
  function SharedSpec(): Spec {
    Spec(Some("d"), Some([Node(Some("a"), Some("w")), Node(Some("b"), Some("w"))]), Some([]), Some("f"))
  }

  /** A record is made for this spec, and nothing ever satisfies it. */
  lemma SharedSpecExample()
    ensures ProperSpec(SharedSpec()) && !Satisfiable(AuthorityOf(SharedSpec()))
  {
    var nodes := SharedSpec().nodes.value;
    assert "a"[0] != "b"[0] && nodes[0].workload == nodes[1].workload;
    assert ProperNodes(nodes);
    SatisfiableSpec(SharedSpec());
  }

  // What the digests decide.

  ghost predicate CollisionFree(digest: JsonDigest) {
    forall a, b :: digest(a) == digest(b) ==> a == b
  }

  lemma RecordJsonInjective(a: Record, b: Record)
    requires RecordJson(a) == RecordJson(b)
    ensures a == b
  {
    var left, right := RecordJson(a), RecordJson(b);
    assert left.taskIds.values == right.taskIds.values && left.edges.values == right.edges.values;
    forall i | 0 <= i < |a.taskIds| ensures a.taskIds[i] == b.taskIds[i] {
      assert Texts(a.taskIds)[i] == Texts(b.taskIds)[i];
    }
    forall i | 0 <= i < |a.edges| ensures a.edges[i] == b.edges[i] {
      var pair := EdgeList(a.edges)[i].values;
      assert pair == EdgeList(b.edges)[i].values;
      assert pair[0] == Text(a.edges[i].0) == Text(b.edges[i].0) && pair[1] == Text(a.edges[i].1) == Text(b.edges[i].1);
    }
    assert |a.taskIds| == |b.taskIds| && |a.edges| == |b.edges|;
    assert a.taskIds == b.taskIds && a.edges == b.edges;
  }

  /** With a collision-free digest, two parses with the same topology digest have the same records
      up to order. */
  lemma SameDigestSameTopology(a: seq<Record>, b: seq<Record>, digest: JsonDigest)
    requires CollisionFree(digest)
    ensures TopologySummary(a, digest).topology == TopologySummary(b, digest).topology
            <==> Normalized(a) == Normalized(b)
  {
    var m, n := Normalized(a), Normalized(b);
    hide Normalized, RecordJson;
    var left := seq(|m|, i requires 0 <= i < |m| => RecordJson(m[i]));
    var right := seq(|n|, i requires 0 <= i < |n| => RecordJson(n[i]));
    if digest(List(left)) == digest(List(right)) {
      assert List(left).values == List(right).values;
      forall i | 0 <= i < |m| ensures m[i] == n[i] {
        assert left[i] == right[i];
        RecordJsonInjective(m[i], n[i]);
      }
      assert m == n;
    }
  }
}
