/** Grouping artifacts into releases. */
module InventoryGrouping {
  import opened Ordering
  import opened InventoryContract

  type Key = (string, string)

  predicate CandidateLeq(a: CandidateArtifact, b: CandidateArtifact) {
    PairLeq((a.filename, a.sha256), (b.filename, b.sha256))
  }

  lemma CandidateOrder()
    ensures TotalOrder(CandidateLeq)
  {
    PairOrder();
    forall x, y ensures CandidateLeq(x, y) || CandidateLeq(y, x) {
      assert PairLeq((x.filename, x.sha256), (y.filename, y.sha256))
          || PairLeq((y.filename, y.sha256), (x.filename, x.sha256));
    }
    forall x, y, z | CandidateLeq(x, y) && CandidateLeq(y, z) ensures CandidateLeq(x, z) {
      PairTransitive((x.filename, x.sha256), (y.filename, y.sha256), (z.filename, z.sha256));
    }
  }

  function Contribution(a: Artifact, key: Key): seq<CandidateArtifact> {
    if a.Key() == key then [a.Candidate()] else []
  }

  /** The candidates of one (package, version), in the order of the artifacts. */
  function CandidatesOf(artifacts: seq<Artifact>, key: Key): seq<CandidateArtifact> {
    if artifacts == [] then []
    else
      var last := artifacts[|artifacts| - 1];
      CandidatesOf(artifacts[..|artifacts| - 1], key) + Contribution(last, key)
  }

  /** The keys in the order a Python dict would keep them. */
  function KeysOf(artifacts: seq<Artifact>): (keys: seq<Key>)
    ensures NoDuplicates(keys)
    ensures forall i | 0 <= i < |artifacts| :: artifacts[i].Key() in keys
  {
    if artifacts == [] then []
    else
      var key := artifacts[|artifacts| - 1].Key();
      var before := KeysOf(artifacts[..|artifacts| - 1]);
      if key in before then before else before + [key]
  }

  lemma {:induction false} KeyHasArtifact(artifacts: seq<Artifact>, key: Key) returns (i: nat)
    requires key in KeysOf(artifacts)
    ensures i < |artifacts| && artifacts[i].Key() == key
  {
    var n := |artifacts| - 1;
    if key in KeysOf(artifacts[..n]) {
      i := KeyHasArtifact(artifacts[..n], key);
    } else {
      i := n;
    }
  }

  function ReleaseOf(artifacts: seq<Artifact>, key: Key): Release {
    Release(key.0, key.1, Sort(CandidatesOf(artifacts, key), CandidateLeq))
  }

  function ReleasesFor(artifacts: seq<Artifact>, keys: seq<Key>): (r: seq<Release>)
    ensures |r| == |keys|
    ensures forall i | 0 <= i < |keys| :: r[i] == ReleaseOf(artifacts, keys[i])
  {
    if keys == [] then [] else [ReleaseOf(artifacts, keys[0])] + ReleasesFor(artifacts, keys[1..])
  }

  /** What grouping computes. */
  function Grouped(artifacts: seq<Artifact>): seq<Release> {
    ReleasesFor(artifacts, Sort(KeysOf(artifacts), PairLeq))
  }

  ghost predicate GroupedSoFar(grouped: map<Key, seq<CandidateArtifact>>, order: seq<Key>, artifacts: seq<Artifact>) {
    && order == KeysOf(artifacts)
    && (forall key :: key in grouped <==> key in order)
    && (forall key | key in grouped :: grouped[key] == CandidatesOf(artifacts, key))
  }

  lemma GroupOneMore(grouped: map<Key, seq<CandidateArtifact>>, order: seq<Key>, artifacts: seq<Artifact>,
                     next: Artifact)
    requires GroupedSoFar(grouped, order, artifacts)
    ensures var key := next.Key();
            var list := if key in grouped then grouped[key] else [];
            GroupedSoFar(grouped[key := list + [next.Candidate()]],
                         if key in grouped then order else order + [key], artifacts + [next])
  {
    var more := artifacts + [next];
    assert more[..|more| - 1] == artifacts;
    if next.Key() !in grouped {
      NoCandidates(artifacts, next.Key());
    }
  }

  /** `_group_releases`: a dict of lists filled with setdefault, then rendered in key order. */
  method GroupReleases(artifacts: seq<Artifact>) returns (releases: seq<Release>)
    ensures releases == Grouped(artifacts)
  {
    var grouped: map<Key, seq<CandidateArtifact>>, order: seq<Key> := map[], [];
    for i := 0 to |artifacts|
      invariant GroupedSoFar(grouped, order, artifacts[..i])
    {
      grouped, order := SetDefaultAppend(artifacts[..i], artifacts[i], grouped, order);
      assert artifacts[..i + 1] == artifacts[..i] + [artifacts[i]];
    }
    assert artifacts[..|artifacts|] == artifacts;
    releases := Render(artifacts, grouped, order);
  }

  method SetDefaultAppend(ghost before: seq<Artifact>, next: Artifact,
                          grouped: map<Key, seq<CandidateArtifact>>, order: seq<Key>)
    returns (grouped': map<Key, seq<CandidateArtifact>>, order': seq<Key>)
    requires GroupedSoFar(grouped, order, before)
    ensures GroupedSoFar(grouped', order', before + [next])
  {
    GroupOneMore(grouped, order, before, next);
    hide GroupedSoFar;
    var key := next.Key();
    grouped', order' := grouped, order;
    if key !in grouped {
      grouped', order' := grouped[key := []], order + [key];
    }
    grouped' := grouped'[key := grouped'[key] + [next.Candidate()]];
    assert grouped' == grouped[key := (if key in grouped then grouped[key] else []) + [next.Candidate()]];
  }

  method Render(ghost artifacts: seq<Artifact>, grouped: map<Key, seq<CandidateArtifact>>, order: seq<Key>)
    returns (releases: seq<Release>)
    requires GroupedSoFar(grouped, order, artifacts)
    ensures releases == Grouped(artifacts)
  {
    hide Sort, CandidatesOf, KeysOf, PairLeq;
    var keys := Sort(order, PairLeq);
    SortPermutes(order, PairLeq);
    releases := [];
    for i := 0 to |keys|
      invariant |releases| == i
      invariant forall j | 0 <= j < i :: releases[j] == ReleaseOf(artifacts, keys[j])
    {
      var key := keys[i];
      assert key in keys;
      releases := releases + [Release(key.0, key.1, Sort(grouped[key], CandidateLeq))];
    }
  }

  lemma {:induction false} NoCandidates(artifacts: seq<Artifact>, key: Key)
    requires key !in KeysOf(artifacts)
    ensures CandidatesOf(artifacts, key) == []
  {
    if artifacts != [] {
      assert artifacts[|artifacts| - 1].Key() in KeysOf(artifacts);
      NoCandidates(artifacts[..|artifacts| - 1], key);
    }
  }

  // Conservation.

  function Candidates(artifacts: seq<Artifact>): seq<CandidateArtifact> {
    if artifacts == [] then []
    else Candidates(artifacts[..|artifacts| - 1]) + [artifacts[|artifacts| - 1].Candidate()]
  }

  /** Every candidate of the releases, release by release. */
  function Flatten(releases: seq<Release>): seq<CandidateArtifact> {
    if releases == [] then [] else releases[0].candidates + Flatten(releases[1..])
  }

  lemma {:induction false} FlattenStep(artifacts: seq<Artifact>, keys: seq<Key>)
    requires artifacts != []
    requires NoDuplicates(keys)
    ensures var init, last := artifacts[..|artifacts| - 1], artifacts[|artifacts| - 1];
            multiset(Flatten(ReleasesFor(artifacts, keys)))
              == multiset(Flatten(ReleasesFor(init, keys)))
                 + if last.Key() in keys then multiset{last.Candidate()} else multiset{}
  {
    var init, last := artifacts[..|artifacts| - 1], artifacts[|artifacts| - 1];
    if keys != [] {
      var key, rest := keys[0], keys[1..];
      assert keys == [key] + rest;
      FlattenStep(artifacts, rest);
      SortPermutes(CandidatesOf(artifacts, key), CandidateLeq);
      SortPermutes(CandidatesOf(init, key), CandidateLeq);
      assert key !in rest;
      assert ReleasesFor(artifacts, keys)[1..] == ReleasesFor(artifacts, rest);
      assert ReleasesFor(init, keys)[1..] == ReleasesFor(init, rest);
    }
  }

  lemma {:induction false} FlattenNothing(keys: seq<Key>)
    ensures Flatten(ReleasesFor([], keys)) == []
  {
    if keys != [] {
      FlattenNothing(keys[1..]);
      assert ReleasesFor([], keys)[1..] == ReleasesFor([], keys[1..]);
    }
  }

  lemma {:induction false} FlattenAll(artifacts: seq<Artifact>, keys: seq<Key>)
    requires NoDuplicates(keys)
    requires forall i | 0 <= i < |artifacts| :: artifacts[i].Key() in keys
    ensures multiset(Flatten(ReleasesFor(artifacts, keys))) == multiset(Candidates(artifacts))
  {
    if artifacts == [] {
      FlattenNothing(keys);
    } else {
      FlattenAll(artifacts[..|artifacts| - 1], keys);
      FlattenStep(artifacts, keys);
    }
  }

  ghost predicate StrictlyIncreasing(releases: seq<Release>) {
    forall i, j | 0 <= i < j < |releases| ::
      var a, b := (releases[i].package, releases[i].version), (releases[j].package, releases[j].version);
      a != b && PairLeq(a, b)
  }

  /** No candidate is lost, invented or duplicated, and the release keys strictly increase. */
  lemma GroupingConserves(artifacts: seq<Artifact>)
    ensures multiset(Flatten(Grouped(artifacts))) == multiset(Candidates(artifacts))
    ensures StrictlyIncreasing(Grouped(artifacts))
  {
    var keys := Sort(KeysOf(artifacts), PairLeq);
    SortPermutes(KeysOf(artifacts), PairLeq);
    SortKeepsDistinct(KeysOf(artifacts), PairLeq);
    FlattenAll(artifacts, keys);
    KeysSorted(artifacts);
  }

  lemma KeysSorted(artifacts: seq<Artifact>)
    ensures Sorted(Sort(KeysOf(artifacts), PairLeq), PairLeq)
  {
    PairOrder();
    SortSorts(KeysOf(artifacts), PairLeq);
  }

  // Independence of the order in which the artifacts arrive.

  lemma {:induction false} CandidatesAppend(a: seq<Artifact>, b: seq<Artifact>, key: Key)
    ensures CandidatesOf(a + b, key) == CandidatesOf(a, key) + CandidatesOf(b, key)
  {
    if b == [] {
      assert a + b == a;
    } else {
      var init, last := b[..|b| - 1], b[|b| - 1];
      assert (a + b)[..|a + b| - 1] == a + init;
      CandidatesAppend(a, init, key);
    }
  }

  lemma {:induction false} CandidatesPermute(a: seq<Artifact>, b: seq<Artifact>, key: Key)
    requires multiset(a) == multiset(b)
    ensures multiset(CandidatesOf(a, key)) == multiset(CandidatesOf(b, key))
  {
    if a == [] {
      assert |multiset(b)| == 0;
    } else {
      var k := TakeOut(a, b);
      CandidatesPermute(a[..|a| - 1], b[..k] + b[k + 1..], key);
      CandidatesSplit(b[..k], b[k], b[k + 1..], key);
    }
  }

  lemma CandidatesSplit(front: seq<Artifact>, x: Artifact, back: seq<Artifact>, key: Key)
    ensures multiset(CandidatesOf(front + [x] + back, key))
         == multiset(CandidatesOf(front + back, key)) + multiset(Contribution(x, key))
  {
    CandidatesAppend(front, back, key);
    CandidatesAppend(front + [x], back, key);
    CandidatesAppend(front, [x], key);
    assert CandidatesOf([x], key) == Contribution(x, key);
  }

  /** The releases depend on which artifacts there are, not on their order. */
  lemma GroupingIgnoresOrder(a: seq<Artifact>, b: seq<Artifact>)
    requires multiset(a) == multiset(b)
    ensures Grouped(a) == Grouped(b)
  {
    forall key ensures key in KeysOf(a) <==> key in KeysOf(b) {
      KeysSubset(a, b, key);
      KeysSubset(b, a, key);
    }
    SameElementsSamePermutation(KeysOf(a), KeysOf(b));
    PairOrder();
    SortCanonical(KeysOf(a), KeysOf(b), PairLeq);
    var keys := Sort(KeysOf(a), PairLeq);
    forall i | 0 <= i < |keys| ensures ReleaseOf(a, keys[i]) == ReleaseOf(b, keys[i]) {
      ReleaseIgnoresOrder(a, b, keys[i]);
    }
  }

  lemma KeysSubset(a: seq<Artifact>, b: seq<Artifact>, key: Key)
    requires multiset(a) == multiset(b)
    ensures key in KeysOf(a) ==> key in KeysOf(b)
  {
    if key in KeysOf(a) {
      PermutationBasics(a, b);
      var i := KeyHasArtifact(a, key);
      assert a[i] in b;
    }
  }

  lemma ReleaseIgnoresOrder(a: seq<Artifact>, b: seq<Artifact>, key: Key)
    requires multiset(a) == multiset(b)
    ensures ReleaseOf(a, key) == ReleaseOf(b, key)
  {
    CandidateOrder();
    CandidatesPermute(a, b, key);
    SortCanonical(CandidatesOf(a, key), CandidatesOf(b, key), CandidateLeq);
  }
}
