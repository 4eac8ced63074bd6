/** What the records of a topology contain, and what each field of their summary decides. */
module TopologyRecords {
  import opened Ordering
  import opened Topology
  import opened TopologyAuthority

  // Edges.

  /** The edges of a DAG: declared downstream by the one task or upstream by the other. */
  lemma EdgesExactly(tasks: seq<Task>, source: string, target: string)
    ensures (source, target) in EdgeSet(tasks)
            <==> exists t | t in tasks ::
                   (t.id == source && target in t.downstream) || (t.id == target && source in t.upstream)
  {
    if (source, target) in EdgeSet(tasks) {
      var t :| t in tasks && Declares(t, (source, target));
    }
    if t :| t in tasks && ((t.id == source && target in t.downstream) || (t.id == target && source in t.upstream)) {
      assert Declares(t, (source, target));
    }
  }

  /** Of the edges of a contract those count that are pairs. */
  lemma {:induction false} PairsExactly(edges: seq<seq<string>>, source: string, target: string)
    ensures (source, target) in Pairs(edges) <==> [source, target] in edges
  {
    if edges != [] {
      PairsExactly(edges[1..], source, target);
      assert edges == [edges[0]] + edges[1..];
      if edges[0] == [source, target] {
        assert edges[0][0] == source && edges[0][1] == target;
      }
      if |edges[0]| == 2 {
        assert edges[0] == [edges[0][0], edges[0][1]];
      }
    }
  }

  // The authority of a spec.

  /** The tasks of an authority are the workloads of the spec's nodes with the runtime suffix. */
  lemma AuthorityTasks(spec: Spec, task: string)
    requires ProperSpec(spec)
    ensures task in AuthorityOf(spec).taskIds
            <==> exists n | n in spec.nodes.value :: n.workload.Some? && task == n.workload.value + "__dpone_runtime"
    ensures |AuthorityOf(spec).taskIds| == |spec.nodes.value| && AuthorityOf(spec).fingerprint == spec.fingerprint
    ensures Sorted(AuthorityOf(spec).taskIds, StringLeq)
  {
    var nodes := spec.nodes.value;
    var tasks := SpecTasks(nodes);
    StringOrder();
    SortSorts(tasks, StringLeq);
    SortPermutes(tasks, StringLeq);
    PermutationBasics(Sort(tasks, StringLeq), tasks);
    hide Sort, StringLeq, TotalOrder;
    if n :| n in nodes && n.workload.Some? && task == n.workload.value + "__dpone_runtime" {
      var i :| 0 <= i < |nodes| && nodes[i] == n;
      assert tasks[i] == task;
    }
    if task in tasks {
      var i :| 0 <= i < |tasks| && tasks[i] == task;
      assert Named(nodes[i]) && nodes[i] in nodes;
    }
  }

  /** An edge of the spec says that the one task runs before the other. */
  ghost predicate EdgeOfSpec(nodes: seq<Node>, edges: seq<Option<Edge>>, source: string, target: string) {
    exists k | 0 <= k < |edges| && edges[k].Some? ::
      RunsFor(nodes, edges[k].value.0, source) && RunsFor(nodes, edges[k].value.1, target)
  }

  /** The task is that of the node with the identity. */
  ghost predicate RunsFor(nodes: seq<Node>, id: string, task: string) {
    exists n | n in nodes :: n.id == Some(id) && n.workload.Some? && task == n.workload.value + "__dpone_runtime"
  }

  /** One task runs before another in the authority exactly when an edge of the spec says so. */
  lemma AuthorityEdges(spec: Spec, source: string, target: string)
    requires ProperSpec(spec)
    ensures [source, target] in AuthorityOf(spec).edges
            <==> EdgeOfSpec(spec.nodes.value, spec.edges.value, source, target)
    ensures |AuthorityOf(spec).edges| == |spec.edges.value| && Sorted(Pairs(AuthorityOf(spec).edges), PairLeq)
  {
    var nodes, edges := spec.nodes.value, spec.edges.value;
    var pairs := SpecEdges(nodes, edges);
    var sorted := Sort(pairs, PairLeq);
    PairOrder();
    SortSorts(pairs, PairLeq);
    hide TotalOrder, PairLeq;
    SortPermutes(pairs, PairLeq);
    PermutationBasics(sorted, pairs);
    PairsOfLists(sorted);
    PairsExactly(AuthorityOf(spec).edges, source, target);
    hide Sort, Pairs, Lists, AuthorityOf;
    SpecEdge(nodes, edges, source, target);
  }

  lemma SpecEdge(nodes: seq<Node>, edges: seq<Option<Edge>>, source: string, target: string)
    requires ProperNodes(nodes) && forall i | 0 <= i < |edges| :: ProperEdge(nodes, edges[i])
    ensures (source, target) in SpecEdges(nodes, edges) <==> EdgeOfSpec(nodes, edges, source, target)
  {
    var pairs := SpecEdges(nodes, edges);
    hide ProperNodes, HasNode, RunsFor, TaskNamed;
    forall k | 0 <= k < |edges|
      ensures pairs[k] == (source, target)
              <==> RunsFor(nodes, edges[k].value.0, source) && RunsFor(nodes, edges[k].value.1, target)
    {
      assert ProperEdge(nodes, edges[k]);
      RunsForExactly(nodes, edges[k].value.0, source);
      RunsForExactly(nodes, edges[k].value.1, target);
    }
  }

  lemma RunsForExactly(nodes: seq<Node>, id: string, task: string)
    requires ProperNodes(nodes) && HasNode(nodes, id)
    ensures RunsFor(nodes, id, task) <==> TaskNamed(nodes, id) == task
  {
    var i, named := NodeOf(nodes, id);
    assert nodes[i] in nodes;
    if RunsFor(nodes, id, task) {
      var n :| n in nodes && n.id == Some(id) && n.workload.Some? && task == n.workload.value + "__dpone_runtime";
      var k :| 0 <= k < |nodes| && nodes[k] == n;
      assert k == i;
    }
  }

  lemma NodeOf(nodes: seq<Node>, id: string) returns (i: nat, task: string)
    requires ProperNodes(nodes) && HasNode(nodes, id)
    ensures i < |nodes| && nodes[i].id == Some(id) && nodes[i].workload.Some?
    ensures task == TaskNamed(nodes, id) == nodes[i].workload.value + "__dpone_runtime"
  {
    task := TaskNamed(nodes, id);
    var k :| 0 <= k < |nodes| && nodes[k].id == Some(id) && TaskOf(nodes[k]) == task;
    i := k;
  }

  // The summary.

  function TotalTasks(records: seq<Record>): nat {
    if records == [] then 0 else TotalTasks(records[..|records| - 1]) + |records[|records| - 1].taskIds|
  }

  lemma {:induction false} TasksAppend(a: seq<Record>, b: seq<Record>)
    ensures TotalTasks(a + b) == TotalTasks(a) + TotalTasks(b)
  {
    if b == [] {
      assert a + b == a;
    } else {
      var init, last := b[..|b| - 1], b[|b| - 1];
      assert (a + b)[..|a + b| - 1] == a + init && (a + b)[|a + b| - 1] == last;
      TasksAppend(a, init);
    }
  }

  lemma TasksSplit(front: seq<Record>, x: Record, back: seq<Record>)
    ensures TotalTasks(front + [x] + back) == TotalTasks(front + back) + |x.taskIds|
  {
    TasksAppend(front, back);
    TasksAppend(front + [x], back);
    TasksAppend(front, [x]);
    assert TotalTasks([x]) == |x.taskIds|;
  }

  lemma {:induction false} TasksPermute(a: seq<Record>, b: seq<Record>)
    requires multiset(a) == multiset(b)
    ensures TotalTasks(a) == TotalTasks(b)
  {
    if a == [] {
      assert |multiset(b)| == 0;
    } else {
      var k := TakeOut(a, b);
      TasksPermute(a[..|a| - 1], b[..k] + b[k + 1..]);
      TasksSplit(b[..k], b[k], b[k + 1..]);
    }
  }

  lemma {:induction false} TasksCounted(records: seq<Record>)
    ensures TaskCount(records) == TotalTasks(records)
  {
    if records != [] {
      TasksCounted(records[1..]);
      TasksAppend([records[0]], records[1..]);
      assert [records[0]] + records[1..] == records;
      assert TotalTasks([records[0]]) == |records[0].taskIds|;
    }
  }

  /** The record with its tasks and edges sorted. */
  ghost predicate Tidied(r: Record, tidy: Record) {
    && tidy.dagId == r.dagId && tidy.fingerprint == r.fingerprint
    && Sorted(tidy.taskIds, StringLeq) && multiset(tidy.taskIds) == multiset(r.taskIds)
    && Sorted(tidy.edges, PairLeq) && multiset(tidy.edges) == multiset(r.edges)
  }

  /** Normalising tidies every record and sorts them by DAG. */
  lemma NormalizedExactly(records: seq<Record>) returns (tidy: seq<Record>)
    ensures |tidy| == |records| && forall i | 0 <= i < |records| :: Tidied(records[i], tidy[i])
    ensures multiset(Normalized(records)) == multiset(tidy)
    ensures Sorted(DagIds(Normalized(records)), StringLeq)
  {
    tidy := seq(|records|, i requires 0 <= i < |records| =>
      records[i].(taskIds := Sort(records[i].taskIds, StringLeq), edges := Sort(records[i].edges, PairLeq)));
    assert Normalized(records) == Sort(tidy, RecordLeq);
    SortPermutes(tidy, RecordLeq);
    SortedIds(tidy);
    StringOrder();
    PairOrder();
    SortSorts(DagIds(tidy), StringLeq);
    hide Normalized, DagIds, StringLeq, PairLeq;
    forall i | 0 <= i < |records| ensures Tidied(records[i], tidy[i]) {
      SortSorts(records[i].taskIds, StringLeq);
      SortPermutes(records[i].taskIds, StringLeq);
      SortSorts(records[i].edges, PairLeq);
      SortPermutes(records[i].edges, PairLeq);
    }
  }

  lemma {:induction false} TidyTasks(records: seq<Record>, tidy: seq<Record>)
    requires |tidy| == |records| && forall i | 0 <= i < |records| :: Tidied(records[i], tidy[i])
    ensures TotalTasks(tidy) == TotalTasks(records)
  {
    hide Sorted;
    if records != [] {
      var n := |records| - 1;
      TidyTasks(records[..n], tidy[..n]);
      assert Tidied(records[n], tidy[n]);
      PermutationBasics(tidy[n].taskIds, records[n].taskIds);
    }
  }

  /** The summary counts the DAGs and all their tasks. */
  lemma SummaryCounts(records: seq<Record>, digest: JsonDigest)
    ensures TopologySummary(records, digest).dagCount == |records|
    ensures TopologySummary(records, digest).taskCount == TotalTasks(records)
  {
    var tidy := NormalizedExactly(records);
    hide Normalized, Tidied;
    PermutationBasics(Normalized(records), tidy);
    TasksPermute(Normalized(records), tidy);
    TidyTasks(records, tidy);
    TasksCounted(Normalized(records));
  }

  lemma ColumnsEqual(m: seq<Record>, n: seq<Record>, field: Record -> Json)
    ensures Column(m, field) == Column(n, field)
            <==> |m| == |n| && forall i | 0 <= i < |m| :: m[i].dagId == n[i].dagId && field(m[i]) == field(n[i])
  {
    if Column(m, field) == Column(n, field) {
      var left, right := Column(m, field).values, Column(n, field).values;
      assert |left| == |m| && |right| == |n|;
      forall i | 0 <= i < |m| ensures m[i].dagId == n[i].dagId && field(m[i]) == field(n[i]) {
        assert left[i].values[0] == right[i].values[0] && left[i].values[1] == right[i].values[1];
      }
    }
    if |m| == |n| && forall i | 0 <= i < |m| :: m[i].dagId == n[i].dagId && field(m[i]) == field(n[i]) {
      assert Column(m, field).values == Column(n, field).values;
    }
  }

  lemma TextsEqual(a: seq<string>, b: seq<string>)
    ensures List(Texts(a)) == List(Texts(b)) <==> a == b
  {
    if List(Texts(a)) == List(Texts(b)) {
      assert List(Texts(a)).values == List(Texts(b)).values;
      forall i | 0 <= i < |a| ensures a[i] == b[i] {
        assert Texts(a)[i].text == Texts(b)[i].text;
      }
    }
  }

  lemma EdgesEqual(a: seq<Edge>, b: seq<Edge>)
    ensures List(EdgeList(a)) == List(EdgeList(b)) <==> a == b
  {
    if List(EdgeList(a)) == List(EdgeList(b)) {
      assert List(EdgeList(a)).values == List(EdgeList(b)).values;
      forall i | 0 <= i < |a| ensures a[i] == b[i] {
        var x, y := EdgeList(a)[i].values, EdgeList(b)[i].values;
        assert x == y && x[0].text == y[0].text && x[1].text == y[1].text;
      }
    }
  }

  /** The records agree, place by place, in the identity and in one more thing. */
  ghost predicate AgreeIn<T(!new)>(m: seq<Record>, n: seq<Record>, what: Record -> T) {
    |m| == |n| && forall i | 0 <= i < |m| :: m[i].dagId == n[i].dagId && what(m[i]) == what(n[i])
  }

  /** With a collision-free digest each digest of the summary is the same for two parses exactly when
      their normalised records agree in what it is about. */
  lemma SummaryDigests(a: seq<Record>, b: seq<Record>, digest: JsonDigest)
    requires CollisionFree(digest)
    ensures var s, t, m, n := TopologySummary(a, digest), TopologySummary(b, digest), Normalized(a), Normalized(b);
            && (s.dagIds == t.dagIds <==> DagIds(m) == DagIds(n))
            && (s.fingerprints == t.fingerprints <==> AgreeIn(m, n, (r: Record) => r.fingerprint))
            && (s.taskIds == t.taskIds <==> AgreeIn(m, n, (r: Record) => r.taskIds))
            && (s.edges == t.edges <==> AgreeIn(m, n, (r: Record) => r.edges))
  {
    var m, n := Normalized(a), Normalized(b);
    hide Normalized;
    TextsEqual(DagIds(m), DagIds(n));
    FingerprintColumns(m, n);
    TaskColumns(m, n);
    EdgeColumns(m, n);
    hide Column, AgreeIn, DagIds, TaskCount, RecordJson;
  }

  lemma FingerprintColumns(m: seq<Record>, n: seq<Record>)
    ensures Column(m, (r: Record) => FingerprintJson(r.fingerprint))
            == Column(n, (r: Record) => FingerprintJson(r.fingerprint))
            <==> AgreeIn(m, n, (r: Record) => r.fingerprint)
  {
    ColumnsEqual(m, n, (r: Record) => FingerprintJson(r.fingerprint));
  }

  lemma TaskColumns(m: seq<Record>, n: seq<Record>)
    ensures Column(m, (r: Record) => List(Texts(r.taskIds))) == Column(n, (r: Record) => List(Texts(r.taskIds)))
            <==> AgreeIn(m, n, (r: Record) => r.taskIds)
  {
    ColumnsEqual(m, n, (r: Record) => List(Texts(r.taskIds)));
    hide Column;
    if |m| == |n| {
      forall i | 0 <= i < |m|
        ensures List(Texts(m[i].taskIds)) == List(Texts(n[i].taskIds)) <==> m[i].taskIds == n[i].taskIds
      {
        TextsEqual(m[i].taskIds, n[i].taskIds);
      }
    }
  }

  lemma EdgeColumns(m: seq<Record>, n: seq<Record>)
    ensures Column(m, (r: Record) => List(EdgeList(r.edges))) == Column(n, (r: Record) => List(EdgeList(r.edges)))
            <==> AgreeIn(m, n, (r: Record) => r.edges)
  {
    ColumnsEqual(m, n, (r: Record) => List(EdgeList(r.edges)));
    hide Column;
    if |m| == |n| {
      forall i | 0 <= i < |m|
        ensures List(EdgeList(m[i].edges)) == List(EdgeList(n[i].edges)) <==> m[i].edges == n[i].edges
      {
        EdgesEqual(m[i].edges, n[i].edges);
      }
    }
  }

  // What is wrong with a DAG.

  /** Some task declares an edge with an end outside the DAG. */
  ghost predicate ReachesOutside(tasks: seq<Task>) {
    exists t, other | t in tasks && (other in t.downstream || other in t.upstream) ::
      forall u | u in tasks :: u.id != other
  }

  lemma OutsideExactly(tasks: seq<Task>)
    ensures Within(EdgeSet(tasks), TaskIds(tasks)) <==> !ReachesOutside(tasks)
  {
    var ids := TaskIds(tasks);
    forall id ensures id in ids <==> exists t | t in tasks :: t.id == id {
      if t :| t in tasks && t.id == id {
        var i :| 0 <= i < |tasks| && tasks[i] == t;
        assert ids[i] == id;
      }
      if id in ids {
        var i :| 0 <= i < |ids| && ids[i] == id;
        assert tasks[i] in tasks;
      }
    }
    hide TaskIds;
    if t, other :| t in tasks && (other in t.downstream || other in t.upstream)
                   && forall u | u in tasks :: u.id != other {
      assert Declares(t, (t.id, other)) || Declares(t, (other, t.id));
    }
    if !Within(EdgeSet(tasks), ids) {
      var e :| e in EdgeSet(tasks) && !(e.0 in ids && e.1 in ids);
      var t :| t in tasks && Declares(t, e);
      assert t.id in ids;
    }
  }

  /** The first thing wrong with a DAG, in this order: an edge that leaves it, no tasks, other tasks than
      the authority's or one twice, another fingerprint, other edges or one listed twice. */
  lemma DagErrorsInOrder(dag: Dag, dagId: string, item: Authority)
    ensures var error, ids, pairs := DagError(dag, RecordOf(dagId, item)), TaskIds(dag.tasks), Pairs(item.edges);
            if ReachesOutside(dag.tasks) then error == Some(EdgeOutside)
            else if dag.tasks == [] then error == Some(NoTasks(dagId))
            else if !NoDuplicates(ids) || multiset(ids) != multiset(item.taskIds) then
              error == Some(TaskIdsDiffer(dagId))
            else if dag.fingerprint != item.fingerprint then error == Some(FingerprintDiffers(dagId))
            else if !NoDuplicates(pairs) || Elements(pairs) != EdgeSet(dag.tasks) then
              error == Some(EdgesDiffer(dagId))
            else error == None
  {
    var r, pairs := RecordOf(dagId, item), Pairs(item.edges);
    OutsideExactly(dag.tasks);
    SortPermutes(item.taskIds, StringLeq);
    SortPermutes(pairs, PairLeq);
    SortKeepsDistinct(pairs, PairLeq);
    PermutationBasics(r.edges, pairs);
    assert Elements(r.edges) == Elements(pairs);
    hide ReachesOutside, Within, Pairs, EdgeSet, TaskIds, Sort, NoDuplicates, Elements;
  }
}
