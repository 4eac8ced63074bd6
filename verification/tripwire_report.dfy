/** What the tripwire's counters and its report say about the calls that were blocked. */
module TripwireReport {
  import opened Ordering
  import opened Tripwire
  import opened TripwireCoverage
  import opened TripwireRestore

  /** The probes of the calls blocked during a session, in order. */
  function Trips(s: State, bases: Bases, actions: seq<Action>): seq<string> {
    if actions == [] then []
    else
      var before, last := actions[..|actions| - 1], actions[|actions| - 1];
      Trips(s, bases, before) + TripOf(Run(s, bases, before), bases, last)
  }

  function TripOf(s: State, bases: Bases, a: Action): (r: seq<string>)
    ensures forall p | p in r :: p in s.probes
  {
    if a.Invoke? then
      match Tripped(s, bases, a.owner, a.attribute) case Some(probe) => [probe] case None => []
    else []
  }

  function CategoriesOf(probes: map<string, Probe>, trips: seq<string>): (r: seq<string>)
    requires forall p | p in trips :: p in probes
    ensures |r| == |trips| && forall i | 0 <= i < |r| :: r[i] == probes[trips[i]].category
  {
    seq(|trips|, i requires 0 <= i < |trips| => probes[trips[i]].category)
  }

  /** A recorded probe stays recorded, under the category and group it was recorded with, and once armed
      stays armed; attributes only become more. */
  ghost predicate Extends(before: State, after: State) {
    && before.attributes.Keys <= after.attributes.Keys
    && forall p | p in before.probes ::
         && p in after.probes
         && after.probes[p].category == before.probes[p].category
         && after.probes[p].group == before.probes[p].group
         && (before.probes[p].armed ==> after.probes[p].armed)
  }

  lemma StepExtends(s: State, bases: Bases, a: Action)
    ensures Extends(s, Step(s, bases, a))
  {
    hide HasAttr, Lookup, Tripped;
  }

  lemma {:induction false} RunExtends(s: State, bases: Bases, actions: seq<Action>)
    ensures Extends(s, Run(s, bases, actions))
  {
    if actions != [] {
      RunExtends(s, bases, actions[..|actions| - 1]);
      StepExtends(Run(s, bases, actions[..|actions| - 1]), bases, actions[|actions| - 1]);
    }
  }

  lemma {:induction false} TripsRecorded(s: State, bases: Bases, actions: seq<Action>)
    ensures forall p | p in Trips(s, bases, actions) :: p in Run(s, bases, actions).probes
  {
    hide TripOf, Step;
    if actions != [] {
      var before := actions[..|actions| - 1];
      TripsRecorded(s, bases, before);
      StepExtends(Run(s, bases, before), bases, actions[|actions| - 1]);
    }
  }

  // The counters count the blocked calls.

  /** Counting one more call of one probe adds one to every sum that selects its category. */
  lemma {:induction false} SumCounted(names: seq<string>, probes: map<string, Probe>, probe: string,
                                      select: string -> bool)
    requires probe in probes && NoDuplicates(names)
    ensures var p := probes[probe];
            SumCalls(names, probes[probe := p.(calls := p.calls + 1)], select)
            == SumCalls(names, probes, select) + if probe in names && select(p.category) then 1 else 0
  {
    if names != [] {
      var rest, last := names[..|names| - 1], names[|names| - 1];
      assert names == rest + [last];
      assert probe in names <==> probe in rest || probe == last;
      SumCounted(rest, probes, probe, select);
    }
  }

  /** Sums depend on the recorded categories and counts alone. */
  lemma {:induction false} SumSame(names: seq<string>, before: map<string, Probe>, after: map<string, Probe>,
                                   select: string -> bool)
    requires forall p | p in names :: p in before && p in after
    requires forall p | p in names :: before[p].calls == after[p].calls && before[p].category == after[p].category
    ensures SumCalls(names, before, select) == SumCalls(names, after, select)
  {
    if names != [] {
      SumSame(names[..|names| - 1], before, after, select);
    }
  }

  lemma RecordSum(s: State, probe: string, category: string, group: Option<string>, select: string -> bool)
    requires Consistent(s)
    ensures var after := Record(s, probe, category, group);
            SumCalls(after.names, after.probes, select) == SumCalls(s.names, s.probes, select)
  {
    var after := Record(s, probe, category, group);
    if probe !in s.probes {
      assert after.names[..|after.names| - 1] == s.names;
      SumSame(s.names, s.probes, after.probes, select);
    }
  }

  lemma ArmedSum(s: State, bases: Bases, a: Action, select: string -> bool)
    requires Consistent(s) && a.Arm?
    ensures var after := Armed(s, bases, a);
            SumCalls(after.names, after.probes, select) == SumCalls(s.names, s.probes, select)
  {
    hide HasAttr, Lookup, BindingsOf, StripTrailingS, SumCalls;
    var recorded := Record(s, a.probe, StripTrailingS(a.category), a.group);
    RecordSum(s, a.probe, StripTrailingS(a.category), a.group, select);
    RecordKeeps(s, a.probe, StripTrailingS(a.category), a.group);
    SumSame(recorded.names, recorded.probes, Armed(s, bases, a).probes, select);
  }

  lemma InvokedSum(s: State, bases: Bases, a: Action, select: string -> bool)
    requires Consistent(s) && a.Invoke?
    ensures var after, trip := Step(s, bases, a), TripOf(s, bases, a);
            SumCalls(after.names, after.probes, select)
            == SumCalls(s.names, s.probes, select) + |Filter(CategoriesOf(s.probes, trip), select)|
  {
    hide HasAttr, Lookup, BindingsOf;
    if Tripped(s, bases, a.owner, a.attribute).Some? {
      var probe := Tripped(s, bases, a.owner, a.attribute).value;
      SumCounted(s.names, s.probes, probe, select);
      hide SumCalls;
      assert CategoriesOf(s.probes, [probe]) == [s.probes[probe].category];
    }
  }

  lemma StepSum(s: State, bases: Bases, a: Action, select: string -> bool)
    requires Consistent(s)
    ensures var after, trip := Step(s, bases, a), TripOf(s, bases, a);
            SumCalls(after.names, after.probes, select)
            == SumCalls(s.names, s.probes, select) + |Filter(CategoriesOf(s.probes, trip), select)|
  {
    hide Consistent, HasAttr, Lookup, SumCalls, Tripped, Armed, Record;
    match a {
      case Arm(_, _, _, _, _) =>
        ArmedSum(s, bases, a, select);
      case Missing(category, group, probe) =>
        RecordSum(s, probe, category, group, select);
      case Invoke(_, _) =>
        InvokedSum(s, bases, a, select);
      case _ =>
    }
  }

  /** The counters, summed over any choice of categories, are the number of blocked calls whose
      probe is recorded under such a category; over all of them, the number of blocked calls. */
  lemma {:induction false} CallsConserved(attributes: Attributes, bases: Bases, actions: seq<Action>,
                                          select: string -> bool)
    ensures var s := Untouched(attributes);
            var last, trips := Run(s, bases, actions), Trips(s, bases, actions);
            && (forall p | p in trips :: p in last.probes)
            && SumCalls(last.names, last.probes, select) == |Filter(CategoriesOf(last.probes, trips), select)|
  {
    var s := Untouched(attributes);
    TripsRecorded(s, bases, actions);
    if actions != [] {
      hide Consistent, Step, TripOf;
      var before, a := actions[..|actions| - 1], actions[|actions| - 1];
      var mid := Run(s, bases, before);
      CallsConserved(attributes, bases, before, select);
      AlwaysConsistent(attributes, bases, before);
      StepConserves(mid, bases, a, Trips(s, bases, before), select);
    }
  }

  lemma CategoriesKept(before: State, after: State, trips: seq<string>, trip: seq<string>)
    requires Extends(before, after) && forall p | p in trips + trip :: p in before.probes
    ensures forall p | p in trips + trip :: p in after.probes
    ensures forall p | p in trips || p in trip :: p in before.probes
    ensures CategoriesOf(after.probes, trips + trip)
        == CategoriesOf(before.probes, trips) + CategoriesOf(before.probes, trip)
  {
    forall p | p in trips || p in trip ensures p in before.probes {
      assert p in trips + trip;
    }
  }

  lemma StepConserves(s: State, bases: Bases, a: Action, trips: seq<string>, select: string -> bool)
    requires Consistent(s) && forall p | p in trips :: p in s.probes
    requires SumCalls(s.names, s.probes, select) == |Filter(CategoriesOf(s.probes, trips), select)|
    ensures var after, trip := Step(s, bases, a), TripOf(s, bases, a);
            && (forall p | p in trips + trip :: p in after.probes)
            && SumCalls(after.names, after.probes, select) == |Filter(CategoriesOf(after.probes, trips + trip), select)|
  {
    var after, trip := Step(s, bases, a), TripOf(s, bases, a);
    StepSum(s, bases, a, select);
    StepExtends(s, bases, a);
    hide Consistent, Step, TripOf, SumCalls;
    CategoriesKept(s, after, trips, trip);
    hide Extends, CategoriesOf, Filter;
    FilterAppend(CategoriesOf(s.probes, trips), CategoriesOf(s.probes, trip), select);
  }

  lemma {:induction false} FilterEverything(s: seq<string>)
    ensures Filter(s, (_: string) => true) == s
  {
    if s != [] {
      FilterEverything(s[1..]);
    }
  }

  lemma AllCallsCounted(attributes: Attributes, bases: Bases, actions: seq<Action>)
    ensures var last := Run(Untouched(attributes), bases, actions);
            SumCalls(last.names, last.probes, (_: string) => true) == |Trips(Untouched(attributes), bases, actions)|
  {
    CallsConserved(attributes, bases, actions, (_: string) => true);
    var last := Run(Untouched(attributes), bases, actions);
    FilterEverything(CategoriesOf(last.probes, Trips(Untouched(attributes), bases, actions)));
  }

  // What a passing report means.

  predicate Reported(category: string) {
    category == "network" || category == "database" || category == "secret" || category == "kubernetes"
  }

  lemma CategoryZero(attributes: Attributes, bases: Bases, actions: seq<Action>, category: string)
    ensures var s := Untouched(attributes);
            var last, trips := Run(s, bases, actions), Trips(s, bases, actions);
            CategoryCalls(last.names, last.probes, category) == 0
            <==> forall p | p in trips :: p in last.probes && last.probes[p].category != category
  {
    var s := Untouched(attributes);
    var last, trips := Run(s, bases, actions), Trips(s, bases, actions);
    CallsConserved(attributes, bases, actions, c => c == category);
    FilterNone(CategoriesOf(last.probes, trips), c => c == category);
    hide Run, Trips;
    var categories := CategoriesOf(last.probes, trips);
    if forall i | 0 <= i < |categories| :: categories[i] != category {
      forall p | p in trips ensures last.probes[p].category != category {
        var i :| 0 <= i < |trips| && trips[i] == p;
        assert categories[i] == last.probes[p].category;
      }
    }
  }

  /** The report passes exactly when the probe of every candidate is armed, no forbidden module came
      in, and no blocked call was of a probe recorded under one of the four categories it adds up. */
  lemma ReportMeaning(attributes: Attributes, bases: Bases, actions: seq<Action>)
    ensures var s := Untouched(attributes);
            var last, trips := Run(s, bases, actions), Trips(s, bases, actions);
            ReportOf(last).passed
            <==> (forall c | c in AllCandidates() :: IsArmed(last.probes, c.probe))
                 && last.forbidden == []
                 && forall p | p in trips :: p in last.probes && !Reported(last.probes[p].category)
  {
    var s := Untouched(attributes);
    var last := Run(s, bases, actions);
    CategoryZero(attributes, bases, actions, "network");
    CategoryZero(attributes, bases, actions, "database");
    CategoryZero(attributes, bases, actions, "secret");
    CategoryZero(attributes, bases, actions, "kubernetes");
    hide Run, Trips, CategoryCalls, RequiredProbes, MissingGroups, AllCandidates;
    CoverageExactly(last);
  }

  lemma {:induction false} TableNames(names: seq<string>, probes: map<string, Probe>)
    requires forall i | 0 <= i < |names| :: names[i] in probes
    ensures var table := ProbeTable(names, probes);
            |table| == |names| && forall i | 0 <= i < |names| :: table[i] == (names[i], probes[names[i]])
  {
    if names != [] {
      TableNames(names[1..], probes);
    }
  }

  lemma TableLists(s: State)
    requires Consistent(s)
    ensures var table := ProbeTable(Sort(s.names, StringLeq), s.probes);
            && |table| == |s.names| == |s.probes|
            && (forall i | 0 <= i < |table| :: table[i].0 in s.probes && table[i].1 == s.probes[table[i].0])
            && forall i, j | 0 <= i < j < |table| :: table[i].0 != table[j].0 && StringLeq(table[i].0, table[j].0)
  {
    hide BindingsOf, StringLeq, Sort;
    var sorted := Sort(s.names, StringLeq);
    StringOrder();
    SortSorts(s.names, StringLeq);
    hide TotalOrder;
    SortPermutes(s.names, StringLeq);
    SortKeepsDistinct(s.names, StringLeq);
    assert forall i | 0 <= i < |sorted| :: sorted[i] in sorted;
    TableNames(sorted, s.probes);
    DistinctCardinality(s.names);
    assert Elements(s.names) == s.probes.Keys;
  }

  /** The report lists every recorded probe once, by name, with its record as it stands, and the
      forbidden modules that came in. */
  lemma ReportLists(attributes: Attributes, bases: Bases, actions: seq<Action>)
    ensures var last := Run(Untouched(attributes), bases, actions);
            var table := ReportOf(last).probes;
            && |table| == |last.names| == |last.probes|
            && (forall i | 0 <= i < |table| :: table[i].0 in last.probes && table[i].1 == last.probes[table[i].0])
            && (forall i, j | 0 <= i < j < |table| :: table[i].0 != table[j].0 && StringLeq(table[i].0, table[j].0))
            && ReportOf(last).forbidden == last.forbidden
  {
    AlwaysConsistent(attributes, bases, actions);
    var last := Run(Untouched(attributes), bases, actions);
    hide Run, RequiredProbes, CategoryCalls, MissingGroups, StringLeq, Consistent, ProbeTable, Sort, CoverageOf;
    hide IsArmed;
    TableLists(last);
  }

  // The probes of the catalogue.

  /** Every probe armed or recorded as missing comes from the tables of candidates. */
  predicate Catalogued(actions: seq<Action>) {
    forall i | 0 <= i < |actions| && (actions[i].Arm? || actions[i].Missing?) ::
      exists c :: c in EntryCandidates() + InstalledCandidates()
                  && c.probe == actions[i].probe && c.category == actions[i].category
                  && actions[i].group == Some(c.group)
  }

  /** The first action that records a probe. */
  function FirstRecording(actions: seq<Action>, probe: string): (r: Option<Action>)
    ensures r.Some? ==> r.value.Arm? || r.value.Missing?
  {
    if actions == [] then None
    else
      var before, last := FirstRecording(actions[..|actions| - 1], probe), actions[|actions| - 1];
      if before.Some? then before
      else if (last.Arm? || last.Missing?) && last.probe == probe then Some(last)
      else None
  }

  /** A probe keeps the group and the category of its first recording: as given by a missing candidate, without
      its trailing letters s by `arm`. */
  lemma {:induction false} RecordedCategory(attributes: Attributes, bases: Bases, actions: seq<Action>, probe: string)
    ensures var last, first := Run(Untouched(attributes), bases, actions), FirstRecording(actions, probe);
            && (probe in last.probes <==> first.Some?)
            && (first.Some? ==>
                  && last.probes[probe].group == first.value.group
                  && last.probes[probe].category
                     == if first.value.Arm? then StripTrailingS(first.value.category) else first.value.category)
  {
    if actions != [] {
      RecordedCategory(attributes, bases, actions[..|actions| - 1], probe);
      var s, a := Run(Untouched(attributes), bases, actions[..|actions| - 1]), actions[|actions| - 1];
      StepExtends(s, bases, a);
      if probe !in s.probes {
        StepRecords(s, bases, a, probe);
      }
    }
  }

  lemma StepRecords(s: State, bases: Bases, a: Action, probe: string)
    requires probe !in s.probes
    ensures var after := Step(s, bases, a);
            && (probe in after.probes <==> (a.Arm? || a.Missing?) && a.probe == probe)
            && (probe in after.probes ==>
                  && after.probes[probe].group == a.group
                  && after.probes[probe].category == if a.Arm? then StripTrailingS(a.category) else a.category)
  {
    hide HasAttr, Lookup, StripTrailingS;
  }

  lemma {:induction false} FirstRecordingThere(actions: seq<Action>, probe: string)
    requires FirstRecording(actions, probe).Some?
    ensures exists i | 0 <= i < |actions| ::
              actions[i] == FirstRecording(actions, probe).value
              && (actions[i].Arm? || actions[i].Missing?) && actions[i].probe == probe
  {
    var before := actions[..|actions| - 1];
    if FirstRecording(before, probe).Some? {
      FirstRecordingThere(before, probe);
      var i :| 0 <= i < |before| && before[i] == FirstRecording(before, probe).value
               && (before[i].Arm? || before[i].Missing?) && before[i].probe == probe;
      assert actions[i] == before[i];
    } else {
      assert actions[|actions| - 1].probe == probe;
    }
  }

  lemma CandidateCategory(c: Candidate)
    requires c in EntryCandidates() + InstalledCandidates()
    ensures c.category == "network" || c.category == "database" || c.category == "secret" || c.category == "kubernetes"
    ensures c.category == "kubernetes" <==> c.probe == KUBERNETES_PROBE
  {
    assert "network" != "kubernetes" && "secret" != "kubernetes" && "database" != "kubernetes" by {
      assert |"network"| < |"database"| < |"kubernetes"| && |"secret"| < |"kubernetes"|;
    }
    var probes := ["socket.create_connection", "socket.socket.connect", "socket.socket.connect_ex",
                   "socket.getaddrinfo",
                   "sqlite3.connect", "sqlalchemy.Engine.connect", "airflow.settings.Session", "airflow.Variable.get",
                   "airflow.Connection.get"];
    assert forall i | 0 <= i < |probes| :: |probes[i]| < |KUBERNETES_PROBE|;
  }

  /** Without its trailing letters s the Kubernetes category is none of the reported ones. */
  lemma Stripped()
    ensures StripTrailingS("network") == "network" && StripTrailingS("database") == "database"
    ensures StripTrailingS("secret") == "secret" && StripTrailingS("kubernetes") == "kubernete"
    ensures !Reported("kubernete")
  {
    var s := "kubernetes";
    assert s[..|s| - 1] == "kubernete" && s[|s| - 1] == 's';
    var t := "kubernete";
    assert t[|t| - 1] == 'e';
    assert |t| == 9 && |"network"| == 7 && |"database"| == 8 && |"secret"| == 6 && |s| == 10;
  }

  lemma TripReported(attributes: Attributes, bases: Bases, actions: seq<Action>, probe: string)
    requires Catalogued(actions)
    requires probe in Run(Untouched(attributes), bases, actions).probes
    ensures FirstRecording(actions, probe).Some?
    ensures Reported(Run(Untouched(attributes), bases, actions).probes[probe].category)
            <==> !(probe == KUBERNETES_PROBE && FirstRecording(actions, probe).value.Arm?)
  {
    RecordedCategory(attributes, bases, actions, probe);
    FirstRecordingThere(actions, probe);
    hide Run;
    var i :| 0 <= i < |actions| && actions[i] == FirstRecording(actions, probe).value
             && (actions[i].Arm? || actions[i].Missing?) && actions[i].probe == probe;
    var c :| c in EntryCandidates() + InstalledCandidates()
             && c.probe == actions[i].probe && c.category == actions[i].category;
    CandidateCategory(c);
    Stripped();
    hide StripTrailingS, EntryCandidates, InstalledCandidates;
  }

  /** Over the catalogue's probes, a report passes exactly when coverage is complete, no forbidden
      module came in, and the only blocked calls were of the Kubernetes probe, armed on its first
      recording: those calls go unreported. */
  lemma PassingExactly(attributes: Attributes, bases: Bases, actions: seq<Action>)
    requires Catalogued(actions)
    ensures var s := Untouched(attributes);
            var last, trips := Run(s, bases, actions), Trips(s, bases, actions);
            ReportOf(last).passed
            <==> (forall c | c in AllCandidates() :: IsArmed(last.probes, c.probe))
                 && last.forbidden == []
                 && forall p | p in trips ::
                      p == KUBERNETES_PROBE && FirstRecording(actions, p).Some? && FirstRecording(actions, p).value.Arm?
  {
    var s := Untouched(attributes);
    ReportMeaning(attributes, bases, actions);
    TripsRecorded(s, bases, actions);
    forall p | p in Trips(s, bases, actions)
      ensures p in Run(s, bases, actions).probes && FirstRecording(actions, p).Some?
      ensures !Reported(Run(s, bases, actions).probes[p].category)
              <==> p == KUBERNETES_PROBE && FirstRecording(actions, p).value.Arm?
    {
      TripReported(attributes, bases, actions, p);
    }
  }

  // A passing report over a session in which the Kubernetes API was called.

  lemma {:induction false} RunAppend(s: State, bases: Bases, first: seq<Action>, second: seq<Action>)
    ensures Run(Run(s, bases, first), bases, second) == Run(s, bases, first + second)
    decreases |second|
  {
    if second == [] {
      assert first + second == first;
    } else {
      RunAppend(s, bases, first, second[..|second| - 1]);
      assert (first + second)[..|first + second| - 1] == first + second[..|second| - 1];
    }
  }

  /** Entering and arming an environment in which every candidate has an owner. */
  function Arming(owners: seq<Owner>): (r: seq<Action>)
    requires |owners| == 12
    ensures |r| == 12 && forall i | 0 <= i < 12 :: r[i] == ArmOf(AllCandidates()[i], owners[i])
  {
    TryArmAll(EntryCandidates(), Present(owners[..5])) + TryArmAll(InstalledCandidates(), Present(owners[5..]))
  }

  lemma {:induction false} ArmedByRun(attributes: Attributes, bases: Bases, actions: seq<Action>, i: nat)
    requires i < |actions| && actions[i].Arm? && HasAttr(attributes, bases, actions[i].owner, actions[i].attribute)
    ensures IsArmed(Run(Untouched(attributes), bases, actions).probes, actions[i].probe)
  {
    var s, before := Untouched(attributes), actions[..|actions| - 1];
    var mid := Run(s, bases, before);
    if i == |actions| - 1 {
      AlwaysConsistent(attributes, bases, before);
      RunExtends(s, bases, before);
      FoundStays(attributes, mid.attributes, bases, actions[i].owner, actions[i].attribute);
      ArmReports(mid, bases, actions[i]);
    } else {
      ArmedByRun(attributes, bases, before, i);
      StepExtends(mid, bases, actions[|actions| - 1]);
    }
  }

  lemma {:induction false} ArmingAlone(s: State, bases: Bases, actions: seq<Action>)
    requires forall i | 0 <= i < |actions| :: actions[i].Arm?
    ensures Trips(s, bases, actions) == [] && Run(s, bases, actions).forbidden == s.forbidden
  {
    if actions != [] {
      ArmingAlone(s, bases, actions[..|actions| - 1]);
    }
  }

  lemma {:induction false} NotRecorded(actions: seq<Action>, probe: string)
    requires forall i | 0 <= i < |actions| :: actions[i].Arm? && actions[i].probe != probe
    ensures FirstRecording(actions, probe) == None
  {
    if actions != [] {
      NotRecorded(actions[..|actions| - 1], probe);
    }
  }

  lemma OthersBefore(i: nat)
    requires i < 11
    ensures AllCandidates()[i].probe != KUBERNETES_PROBE
  {
    var c := AllCandidates()[i];
    assert |c.probe| < |KUBERNETES_PROBE|;
  }

  /** The last arming puts the Kubernetes stub in place. */
  lemma KubernetesArmed(attributes: Attributes, bases: Bases, owners: seq<Owner>)
    requires |owners| == 12 && HasAttr(attributes, bases, owners[11], "call_api")
    ensures FirstRecording(Arming(owners), KUBERNETES_PROBE) == Some(Arming(owners)[11])
    ensures Tripped(Run(Untouched(attributes), bases, Arming(owners)), bases, owners[11], "call_api")
        == Some(KUBERNETES_PROBE)
  {
    var s, actions := Untouched(attributes), Arming(owners);
    var before := actions[..11];
    var mid := Run(s, bases, before);
    assert actions[..|actions| - 1] == before;
    forall i | 0 <= i < 11 ensures before[i].Arm? && before[i].probe != KUBERNETES_PROBE {
      OthersBefore(i);
    }
    assert actions[11] == ArmOf(AllCandidates()[11], owners[11]);
    assert AllCandidates()[11].probe == KUBERNETES_PROBE && AllCandidates()[11].attribute == "call_api";
    NotRecorded(before, KUBERNETES_PROBE);
    RecordedCategory(attributes, bases, before, KUBERNETES_PROBE);
    AlwaysConsistent(attributes, bases, before);
    RunExtends(s, bases, before);
    FoundStays(attributes, mid.attributes, bases, owners[11], "call_api");
    FreshArm(mid, bases, actions[11]);
  }

  lemma FreshArm(s: State, bases: Bases, a: Action)
    requires a.Arm? && Consistent(s) && a.probe !in s.probes && HasAttr(s.attributes, bases, a.owner, a.attribute)
    ensures Tripped(Step(s, bases, a), bases, a.owner, a.attribute) == Some(a.probe)
  {
    assert Binding(a.owner, a.attribute, a.probe) !in s.bindings;
    OwnEntryFirst(Step(s, bases, a).attributes, bases, a.owner, a.attribute);
  }

  lemma ArmingIsComplete(attributes: Attributes, bases: Bases, owners: seq<Owner>)
    requires |owners| == 12
    requires forall i | 0 <= i < 12 :: HasAttr(attributes, bases, owners[i], AllCandidates()[i].attribute)
    ensures var last := Run(Untouched(attributes), bases, Arming(owners));
            forall c | c in AllCandidates() :: IsArmed(last.probes, c.probe)
  {
    var last := Run(Untouched(attributes), bases, Arming(owners));
    forall i | 0 <= i < 12 ensures IsArmed(last.probes, AllCandidates()[i].probe) {
      ArmedByRun(attributes, bases, Arming(owners), i);
    }
    hide Run, AllCandidates;
  }

  /** In every environment that has all the candidates, a session that calls the Kubernetes API
      once blocks that call and still passes, with a Kubernetes counter of zero. */
  lemma BlindSpot(attributes: Attributes, bases: Bases, owners: seq<Owner>)
    requires |owners| == 12
    requires forall i | 0 <= i < 12 :: HasAttr(attributes, bases, owners[i], AllCandidates()[i].attribute)
    ensures var actions := Arming(owners) + [Invoke(owners[11], "call_api")];
            var report := ReportOf(Run(Untouched(attributes), bases, actions));
            && Trips(Untouched(attributes), bases, actions) == [KUBERNETES_PROBE]
            && report.passed && report.kubernetes == 0
  {
    hide AllCandidates, RequiredProbes, Arming, Catalogued, IsArmed, FirstRecording, ReportOf;
    hide Run, Trips, HasAttr, Tripped;
    var s, arming, call := Untouched(attributes), Arming(owners), Invoke(owners[11], "call_api");
    var actions := arming + [call];
    assert AllCandidates()[11].attribute == "call_api" by { LastCandidate(); }
    KubernetesArmed(attributes, bases, owners);
    ArmingIsComplete(attributes, bases, owners);
    ArmingAlone(s, bases, arming);
    OneCall(s, bases, arming, call, KUBERNETES_PROBE);
    CataloguedArming(owners, call);
    PassingExactly(attributes, bases, actions);
    PassedCounters(Run(s, bases, actions));
  }

  lemma LastCandidate()
    ensures AllCandidates()[11].attribute == "call_api"
  {
  }

  lemma PassedCounters(s: State)
    ensures ReportOf(s).passed ==> ReportOf(s).kubernetes == 0
  {
  }

  lemma OneCall(s: State, bases: Bases, arming: seq<Action>, call: Action, probe: string)
    requires call.Invoke? && Tripped(Run(s, bases, arming), bases, call.owner, call.attribute) == Some(probe)
    requires Trips(s, bases, arming) == []
    ensures Trips(s, bases, arming + [call]) == [probe]
    ensures Run(s, bases, arming + [call]).forbidden == Run(s, bases, arming).forbidden
    ensures forall p :: IsArmed(Run(s, bases, arming).probes, p) ==> IsArmed(Run(s, bases, arming + [call]).probes, p)
    ensures FirstRecording(arming + [call], probe) == FirstRecording(arming, probe)
  {
    hide Lookup;
    var actions := arming + [call];
    assert actions[..|actions| - 1] == arming;
    StepExtends(Run(s, bases, arming), bases, call);
  }

  lemma CataloguedArming(owners: seq<Owner>, call: Action)
    requires |owners| == 12 && call.Invoke?
    ensures Catalogued(Arming(owners) + [call])
  {
    var actions := Arming(owners) + [call];
    forall i | 0 <= i < |actions| && (actions[i].Arm? || actions[i].Missing?)
      ensures exists c :: c in EntryCandidates() + InstalledCandidates()
                          && c.probe == actions[i].probe && c.category == actions[i].category
                          && actions[i].group == Some(c.group)
    {
      assert AllCandidates()[i] in AllCandidates();
    }
  }

  /** Only letters s are taken from the end, and all of them. */
  lemma {:induction false} StripsTrailingS(s: string) returns (taken: string)
    ensures s == StripTrailingS(s) + taken && forall c | c in taken :: c == 's'
    ensures var r := StripTrailingS(s); r != "" ==> r[|r| - 1] != 's'
  {
    taken := "";
    if s != "" && s[|s| - 1] == 's' {
      var rest := StripsTrailingS(s[..|s| - 1]);
      taken := rest + "s";
      assert s == s[..|s| - 1] + "s";
    }
  }
}
