/** What the coverage part of a report says about the catalogue of probes. */
module TripwireCoverage {
  import opened Ordering
  import opened Tripwire

  function AllCandidates(): (r: seq<Candidate>)
    ensures |r| == 12
  {
    EntryCandidates() + InstalledCandidates()
  }

  /** The catalogue: ten probes in four groups. */
  predicate Catalogue(group: string, probe: string) {
    || (group == "network"
        && probe in {"socket.create_connection", "socket.socket.connect", "socket.socket.connect_ex",
                     "socket.getaddrinfo"})
    || (group == "database_session"
        && probe in {"sqlite3.connect", "sqlalchemy.Engine.connect", "airflow.settings.Session"})
    || (group == "airflow_metadata" && probe in {"airflow.Variable.get", "airflow.Connection.get"})
    || (group == "kubernetes_api" && probe == "kubernetes.client.ApiClient.call_api")
  }

  /** The candidates and the table of required probes both are the catalogue. */
  lemma SameCatalogue(group: string, probe: string)
    ensures (exists c | c in AllCandidates() :: c.group == group && c.probe == probe) <==> Catalogue(group, probe)
    ensures (exists r | r in RequiredProbes() :: r.0 == group && probe in r.1) <==> Catalogue(group, probe)
  {
    CandidatesCatalogue(group, probe);
    RequiredCatalogue(group, probe);
  }

  lemma CandidatesCatalogue(group: string, probe: string)
    ensures (exists c | c in AllCandidates() :: c.group == group && c.probe == probe) <==> Catalogue(group, probe)
  {
    if Catalogue(group, probe) {
      CatalogueHasCandidate(group, probe);
    }
    forall i | 0 <= i < 12 ensures Catalogue(AllCandidates()[i].group, AllCandidates()[i].probe) {
      CandidateInCatalogue(i);
    }
    hide AllCandidates, Catalogue;
  }

  lemma CandidateInCatalogue(i: nat)
    requires i < 12
    ensures Catalogue(AllCandidates()[i].group, AllCandidates()[i].probe)
  {
  }

  lemma CatalogueHasCandidate(group: string, probe: string)
    requires Catalogue(group, probe)
    ensures exists c | c in AllCandidates() :: c.group == group && c.probe == probe
  {
    var c := AllCandidates();
    var i := if group == "network" then
               (if probe == "socket.create_connection" then 0
                else if probe == "socket.socket.connect" then 1
                else if probe == "socket.socket.connect_ex" then 2
                else 3)
             else if group == "database_session" then
               (if probe == "sqlite3.connect" then 4
                else if probe == "sqlalchemy.Engine.connect" then 5
                else 6)
             else if group == "airflow_metadata" then (if probe == "airflow.Variable.get" then 7 else 9)
             else 11;
    assert c[i].group == group && c[i].probe == probe;
    assert c[i] in c;
  }

  lemma RequiredCatalogue(group: string, probe: string)
    ensures (exists r | r in RequiredProbes() :: r.0 == group && probe in r.1) <==> Catalogue(group, probe)
  {
    var r := RequiredProbes();
    assert r[0] in r && r[1] in r && r[2] in r && r[3] in r;
  }

  lemma {:induction false} NothingMissing(probes: map<string, Probe>, groups: seq<(string, seq<string>)>)
    ensures MissingGroups(probes, groups) == [] <==> forall g, p | g in groups && p in g.1 :: IsArmed(probes, p)
  {
    if groups != [] {
      var rest, last := groups[..|groups| - 1], groups[|groups| - 1];
      NothingMissing(probes, rest);
      FilterNone(last.1, probe => !IsArmed(probes, probe));
      assert groups == rest + [last];
      assert forall g :: g in groups <==> g in rest || g == last;
    }
  }

  lemma {:induction false} GroupMissing(probes: map<string, Probe>, groups: seq<(string, seq<string>)>, group: string)
    ensures group in MissingGroups(probes, groups)
            <==> exists r, p | r in groups && p in r.1 :: r.0 == group && !IsArmed(probes, p)
  {
    if groups != [] {
      var rest, last := groups[..|groups| - 1], groups[|groups| - 1];
      GroupMissing(probes, rest, group);
      FilterNone(last.1, probe => !IsArmed(probes, probe));
      assert groups == rest + [last];
      assert forall g :: g in groups <==> g in rest || g == last;
    }
  }

  /** Coverage is complete exactly when every candidate's probe is armed, and a group is reported
      missing exactly when a probe of one of its candidates is not. */
  lemma CoverageExactly(s: State)
    ensures ReportOf(s).coverageComplete <==> forall c | c in AllCandidates() :: IsArmed(s.probes, c.probe)
    ensures forall group :: group in ReportOf(s).missingGroups
                            <==> exists c | c in AllCandidates() :: c.group == group && !IsArmed(s.probes, c.probe)
  {
    var required := RequiredProbes();
    NothingMissing(s.probes, required);
    hide RequiredProbes, AllCandidates, Catalogue, MissingGroups, CategoryCalls, Coverage, ProbeTable;
    if forall c | c in AllCandidates() :: IsArmed(s.probes, c.probe) {
      forall g, p | g in required && p in g.1 ensures IsArmed(s.probes, p) {
        SameCatalogue(g.0, p);
      }
    }
    if forall g, p | g in required && p in g.1 :: IsArmed(s.probes, p) {
      forall c | c in AllCandidates() ensures IsArmed(s.probes, c.probe) {
        SameCatalogue(c.group, c.probe);
      }
    }
    forall group ensures group in MissingGroups(s.probes, required)
                         <==> exists c | c in AllCandidates() :: c.group == group && !IsArmed(s.probes, c.probe) {
      MissingExactly(s.probes, group);
    }
  }

  lemma MissingExactly(probes: map<string, Probe>, group: string)
    ensures group in MissingGroups(probes, RequiredProbes())
            <==> exists c | c in AllCandidates() :: c.group == group && !IsArmed(probes, c.probe)
  {
    var required := RequiredProbes();
    GroupMissing(probes, required, group);
    hide RequiredProbes, AllCandidates, Catalogue, MissingGroups, IsArmed;
    if g, p :| g in required && p in g.1 && g.0 == group && !IsArmed(probes, p) {
      SameCatalogue(group, p);
    }
    if c :| c in AllCandidates() && c.group == group && !IsArmed(probes, c.probe) {
      SameCatalogue(group, c.probe);
    }
  }

  /** Every group of the catalogue is reported once, with the probes of its candidates, those of them
      that are not armed, and whether there are none of these. */
  lemma GroupsExactly(s: State)
    ensures var groups := ReportOf(s).groups;
            && (forall group :: InCatalogue(group)
                                <==> exists i | 0 <= i < |groups| :: groups[i].group == group)
            && (forall i, j | 0 <= i < j < |groups| :: groups[i].group != groups[j].group)
            && forall i | 0 <= i < |groups| :: GroupReported(s.probes, groups[i])
  {
    var required, groups := RequiredProbes(), ReportOf(s).groups;
    assert |required| == 4 && |groups| == 4;
    DistinctGroups();
    hide RequiredProbes, AllCandidates, Catalogue, MissingGroups, IsArmed, CategoryCalls, ProbeTable, GroupReported;
    hide CoverageOf;
    forall i | 0 <= i < 4 ensures groups[i].group == required[i].0 && GroupReported(s.probes, groups[i]) {
      GroupIsReported(s.probes, i);
    }
    forall group ensures InCatalogue(group) <==> exists i | 0 <= i < 4 :: required[i].0 == group {
      GroupsThere(group);
    }
  }

  ghost predicate InCatalogue(group: string) {
    exists c | c in AllCandidates() :: c.group == group
  }

  ghost predicate GroupReported(probes: map<string, Probe>, g: GroupCoverage) {
    && (forall p :: p in g.required <==> exists c | c in AllCandidates() :: c.group == g.group && c.probe == p)
    && (forall p :: p in g.missing <==> p in g.required && !IsArmed(probes, p))
    && (g.complete <==> g.missing == [])
  }

  lemma DistinctGroups()
    ensures var r := RequiredProbes();
            |r| == 4 && forall i, j | 0 <= i < j < 4 :: r[i].0 != r[j].0
  {
    var r := RequiredProbes();
    assert |r[0].0| == 7 && |r[1].0| == 16 && |r[2].0| == 16 && |r[3].0| == 14 && r[1].0[0] != r[2].0[0];
  }

  lemma GroupIsReported(probes: map<string, Probe>, i: nat)
    requires i < |RequiredProbes()|
    ensures var g := CoverageOf(probes, RequiredProbes()[i]);
            g.group == RequiredProbes()[i].0 && GroupReported(probes, g)
  {
    var row := RequiredProbes()[i];
    forall p ensures p in row.1 <==> exists c | c in AllCandidates() :: c.group == row.0 && c.probe == p {
      RowCandidates(i, p);
    }
    hide RequiredProbes, AllCandidates, IsArmed;
    forall p ensures p in MissingProbes(probes, row.1) <==> p in row.1 && !IsArmed(probes, p) {
      FilterMember(row.1, probe => !IsArmed(probes, probe), p);
    }
  }

  lemma RowCandidates(i: nat, p: string)
    requires i < |RequiredProbes()|
    ensures p in RequiredProbes()[i].1
            <==> exists c | c in AllCandidates() :: c.group == RequiredProbes()[i].0 && c.probe == p
  {
    var required := RequiredProbes();
    DistinctGroups();
    hide RequiredProbes, AllCandidates, Catalogue;
    SameCatalogue(required[i].0, p);
    assert required[i] in required;
    if r :| r in required && r.0 == required[i].0 && p in r.1 {
      var j :| 0 <= j < |required| && required[j] == r;
    }
  }

  lemma GroupsThere(group: string)
    ensures InCatalogue(group) <==> exists i | 0 <= i < |RequiredProbes()| :: RequiredProbes()[i].0 == group
  {
    GroupThere(group);
    hide RequiredProbes, AllCandidates;
  }

  lemma GroupThere(group: string)
    ensures (exists c | c in AllCandidates() :: c.group == group)
            <==> exists i | 0 <= i < |RequiredProbes()| :: RequiredProbes()[i].0 == group
  {
    var c, r := AllCandidates(), RequiredProbes();
    assert c[0] in c && c[4] in c && c[7] in c && c[11] in c;
    assert c[0].group == r[0].0 && c[4].group == r[1].0 && c[7].group == r[2].0 && c[11].group == r[3].0;
  }

  /** The attributes that stand for the probes. */
  predicate Armable(attribute: string, probe: string) {
    || (attribute == "create_connection" && probe == "socket.create_connection")
    || (attribute == "connect" && probe == "socket.socket.connect")
    || (attribute == "connect_ex" && probe == "socket.socket.connect_ex")
    || (attribute == "getaddrinfo" && probe == "socket.getaddrinfo")
    || (attribute == "connect" && probe == "sqlite3.connect")
    || (attribute == "connect" && probe == "sqlalchemy.Engine.connect")
    || (attribute == "Session" && probe == "airflow.settings.Session")
    || (attribute == "get" && probe == "airflow.Variable.get")
    || (attribute == "get_connection" && probe == "airflow.Connection.get")
    || (attribute == "get_connection_from_secrets" && probe == "airflow.Connection.get")
    || (attribute == "call_api" && probe == "kubernetes.client.ApiClient.call_api")
  }

  lemma CandidateArmable(i: nat)
    requires i < 12
    ensures Armable(AllCandidates()[i].attribute, AllCandidates()[i].probe)
  {
  }

  lemma ArmableCandidate(attribute: string, probe: string)
    requires Armable(attribute, probe)
    ensures exists c | c in AllCandidates() :: c.attribute == attribute && c.probe == probe
  {
    var c := AllCandidates();
    var i := if probe == "socket.create_connection" then 0
             else if probe == "socket.socket.connect" then 1
             else if probe == "socket.socket.connect_ex" then 2
             else if probe == "socket.getaddrinfo" then 3
             else if probe == "sqlite3.connect" then 4
             else if probe == "sqlalchemy.Engine.connect" then 5
             else if probe == "airflow.settings.Session" then 6
             else if probe == "airflow.Variable.get" then 7
             else if attribute == "get_connection" then 9
             else if attribute == "get_connection_from_secrets" then 10
             else 11;
    assert c[i].attribute == attribute && c[i].probe == probe;
    assert c[i] in c;
  }

  /** The candidates put stubs on exactly these attributes. */
  lemma AttributesExactly(attribute: string, probe: string)
    ensures (exists c | c in AllCandidates() :: c.attribute == attribute && c.probe == probe)
            <==> Armable(attribute, probe)
  {
    if Armable(attribute, probe) {
      ArmableCandidate(attribute, probe);
    }
    forall i | 0 <= i < 12 ensures Armable(AllCandidates()[i].attribute, AllCandidates()[i].probe) {
      CandidateArmable(i);
    }
    hide AllCandidates, Armable;
  }
}
