/** The four counters of a report, by the probes of the catalogue. */
module TripwireCounters {
  import opened Ordering
  import opened Tripwire
  import opened TripwireCoverage
  import opened TripwireReport

  /** How many of the trips are of these probes. */
  function Times(trips: seq<string>, probes: set<string>): nat {
    if trips == [] then 0 else (if trips[0] in probes then 1 else 0) + Times(trips[1..], probes)
  }

  function NetworkProbes(): set<string> {
    {"socket.create_connection", "socket.socket.connect", "socket.socket.connect_ex", "socket.getaddrinfo"}
  }

  function DatabaseProbes(): set<string> {
    {"sqlite3.connect", "sqlalchemy.Engine.connect", "airflow.settings.Session"}
  }

  function SecretProbes(): set<string> {
    {"airflow.Variable.get", "airflow.Connection.get"}
  }

  lemma CandidateCounted(i: nat)
    requires i < 12
    ensures var c := AllCandidates()[i];
            || (i < 4 && c.category == "network" && c.probe in NetworkProbes())
            || (4 <= i < 7 && c.category == "database" && c.probe in DatabaseProbes())
            || (7 <= i < 11 && c.category == "secret" && c.probe in SecretProbes())
            || (i == 11 && c.category == "kubernetes" && c.probe == KUBERNETES_PROBE)
  {
  }

  lemma ApartProbes(p: string)
    ensures !(p in NetworkProbes() && p in DatabaseProbes()) && !(p in NetworkProbes() && p in SecretProbes())
    ensures !(p in DatabaseProbes() && p in SecretProbes())
    ensures p == KUBERNETES_PROBE ==> p !in NetworkProbes() && p !in DatabaseProbes() && p !in SecretProbes()
  {
  }

  lemma CategoriesDiffer()
    ensures |"network"| == 7 && |"database"| == 8 && |"secret"| == 6 && |"kubernetes"| == 10 && |"kubernete"| == 9
  {
  }

  /** The category under which a probe of the catalogue is recorded. */
  lemma RecordedUnder(attributes: Attributes, bases: Bases, actions: seq<Action>, p: string)
    requires Catalogued(actions) && p in Run(Untouched(attributes), bases, actions).probes
    ensures Counted(actions, Run(Untouched(attributes), bases, actions).probes[p].category, p)
  {
    RecordedCategory(attributes, bases, actions, p);
    FirstRecordingThere(actions, p);
    hide Run;
    var i :| 0 <= i < |actions| && actions[i] == FirstRecording(actions, p).value
             && (actions[i].Arm? || actions[i].Missing?) && actions[i].probe == p;
    var c :| c in AllCandidates() && c.probe == actions[i].probe && c.category == actions[i].category;
    var k :| 0 <= k < 12 && AllCandidates()[k] == c;
    hide AllCandidates, StripTrailingS, FirstRecording, NetworkProbes, DatabaseProbes, SecretProbes, Catalogued;
    CandidateCounted(k);
    Stripped();
    CategoriesDiffer();
    ApartProbes(p);
  }

  lemma {:induction false} FilterTimes(probes: map<string, Probe>, trips: seq<string>, select: string -> bool,
                                       counted: set<string>)
    requires forall p | p in trips :: p in probes && (select(probes[p].category) <==> p in counted)
    ensures |Filter(CategoriesOf(probes, trips), select)| == Times(trips, counted)
  {
    if trips != [] {
      var rest := trips[1..];
      FilterTimes(probes, rest, select, counted);
      assert CategoriesOf(probes, trips) == [probes[trips[0]].category] + CategoriesOf(probes, rest);
      FilterAppend([probes[trips[0]].category], CategoriesOf(probes, rest), select);
      hide CategoriesOf;
      assert trips[0] in trips;
      FilterSingle(probes[trips[0]].category, select);
    }
  }

  lemma FilterSingle(x: string, select: string -> bool)
    ensures |Filter([x], select)| == if select(x) then 1 else 0
  {
  }

  lemma CounterIs(attributes: Attributes, bases: Bases, actions: seq<Action>, category: string, counted: set<string>)
    requires var last := Run(Untouched(attributes), bases, actions);
             forall p | p in Trips(Untouched(attributes), bases, actions) ::
               p in last.probes && (last.probes[p].category == category <==> p in counted)
    ensures var last := Run(Untouched(attributes), bases, actions);
            CategoryCalls(last.names, last.probes, category)
            == Times(Trips(Untouched(attributes), bases, actions), counted)
  {
    var last, trips := Run(Untouched(attributes), bases, actions), Trips(Untouched(attributes), bases, actions);
    CallsConserved(attributes, bases, actions, c => c == category);
    hide Run, Trips;
    FilterTimes(last.probes, trips, c => c == category, counted);
  }

  /** Over the catalogue's probes the network, database and secret counters are the numbers of blocked
      calls of their probes; the Kubernetes counter is that of its probe if it was first recorded as
      missing, and zero if `arm` recorded it. */
  lemma CountersExactly(attributes: Attributes, bases: Bases, actions: seq<Action>)
    requires Catalogued(actions)
    ensures var s := Untouched(attributes);
            var report, trips := ReportOf(Run(s, bases, actions)), Trips(s, bases, actions);
            var first := FirstRecording(actions, "kubernetes.client.ApiClient.call_api");
            && report.network == Times(trips, {"socket.create_connection", "socket.socket.connect",
                                               "socket.socket.connect_ex", "socket.getaddrinfo"})
            && report.database == Times(trips, {"sqlite3.connect", "sqlalchemy.Engine.connect",
                                                "airflow.settings.Session"})
            && report.secret == Times(trips, {"airflow.Variable.get", "airflow.Connection.get"})
            && report.kubernetes == if first.Some? && first.value.Missing?
                                    then Times(trips, {"kubernetes.client.ApiClient.call_api"}) else 0
  {
    var s := Untouched(attributes);
    var last, trips := Run(s, bases, actions), Trips(s, bases, actions);
    TripsRecorded(s, bases, actions);
    hide Run, Trips, RequiredProbes, Catalogued, Coverage, ProbeTable, MissingGroups, CategoryCalls, FirstRecording;
    forall p | p in trips ensures Counted(actions, last.probes[p].category, p) {
      RecordedUnder(attributes, bases, actions, p);
    }
    CounterIs(attributes, bases, actions, "network", NetworkProbes());
    CounterIs(attributes, bases, actions, "database", DatabaseProbes());
    CounterIs(attributes, bases, actions, "secret", SecretProbes());
    var first := FirstRecording(actions, KUBERNETES_PROBE);
    CounterIs(attributes, bases, actions, "kubernetes",
              if first.Some? && first.value.Missing? then {KUBERNETES_PROBE} else {});
    TimesNothing(trips);
    assert KUBERNETES_PROBE == "kubernetes.client.ApiClient.call_api";
    CountersOf(last);
  }

  ghost predicate Counted(actions: seq<Action>, category: string, p: string) {
    && (category == "network" <==> p in NetworkProbes())
    && (category == "database" <==> p in DatabaseProbes())
    && (category == "secret" <==> p in SecretProbes())
    && (category == "kubernetes"
        <==> p == KUBERNETES_PROBE && FirstRecording(actions, p).Some? && FirstRecording(actions, p).value.Missing?)
  }

  lemma {:induction false} TimesNothing(trips: seq<string>)
    ensures Times(trips, {}) == 0
  {
    if trips != [] {
      TimesNothing(trips[1..]);
    }
  }

  lemma CountersOf(s: State)
    ensures ReportOf(s).network == CategoryCalls(s.names, s.probes, "network")
    ensures ReportOf(s).database == CategoryCalls(s.names, s.probes, "database")
    ensures ReportOf(s).secret == CategoryCalls(s.names, s.probes, "secret")
    ensures ReportOf(s).kubernetes == CategoryCalls(s.names, s.probes, "kubernetes")
  {
    hide CategoryCalls;
  }

  /** Entering and arming the installed environment records probes of the catalogue alone, whatever the
      environment has. */
  lemma SessionsCatalogued(owners: seq<Owner>, installed: seq<Option<Owner>>)
    requires |owners| == 5 && |installed| == 7
    ensures Catalogued(TryArmAll(EntryCandidates(), Present(owners)) + TryArmAll(InstalledCandidates(), installed))
  {
    var actions := TryArmAll(EntryCandidates(), Present(owners)) + TryArmAll(InstalledCandidates(), installed);
    forall i | 0 <= i < |actions| && (actions[i].Arm? || actions[i].Missing?)
      ensures exists c :: c in EntryCandidates() + InstalledCandidates()
                          && c.probe == actions[i].probe && c.category == actions[i].category
                          && actions[i].group == Some(c.group)
    {
      assert AllCandidates()[i] in AllCandidates();
    }
  }

  /** A recorded probe of the catalogue is recorded in its group. */
  lemma RecordedInGroup(attributes: Attributes, bases: Bases, actions: seq<Action>, p: string)
    requires Catalogued(actions) && p in Run(Untouched(attributes), bases, actions).probes
    ensures var group := Run(Untouched(attributes), bases, actions).probes[p].group;
            group.Some? && Catalogue(group.value, p)
  {
    RecordedCategory(attributes, bases, actions, p);
    FirstRecordingThere(actions, p);
    hide Run;
    var i :| 0 <= i < |actions| && actions[i] == FirstRecording(actions, p).value
             && (actions[i].Arm? || actions[i].Missing?) && actions[i].probe == p;
    var c :| c in AllCandidates() && c.probe == actions[i].probe && c.category == actions[i].category
             && actions[i].group == Some(c.group);
    hide AllCandidates, StripTrailingS, FirstRecording, Catalogued, Catalogue;
    SameCatalogue(c.group, p);
  }
}
