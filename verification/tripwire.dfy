/** The parse-time side-effect tripwire: named attributes of modules and classes are replaced by
    counting stubs, calls of the stubs are blocked and counted, and leaving the tripwire puts
    every attribute back. */
module Tripwire {
  import opened ForbiddenImports
  import opened Ordering

  /** id(owner) of a module or class. */
  type Owner = int

  /** What an attribute holds: some object the tripwire did not make, or its stub for a probe. */
  datatype Value = Original(id: int) | Blocked(probe: string)

  /** The entries of every object's own `__dict__`. */
  type Attributes = map<(Owner, string), Value>

  /** Where attribute lookup goes on after the owner itself. */
  type Bases = Owner -> seq<Owner>

  function LookupIn(attributes: Attributes, order: seq<Owner>, attribute: string): Option<Value> {
    if order == [] then None
    else if (order[0], attribute) in attributes then Some(attributes[(order[0], attribute)])
    else LookupIn(attributes, order[1..], attribute)
  }

  /** getattr(owner, attribute) */
  function Lookup(attributes: Attributes, bases: Bases, owner: Owner, attribute: string): Option<Value> {
    LookupIn(attributes, [owner] + bases(owner), attribute)
  }

  predicate HasAttr(attributes: Attributes, bases: Bases, owner: Owner, attribute: string) {
    Lookup(attributes, bases, owner, attribute).Some?
  }

  datatype Probe = Probe(armed: bool, armedBindings: nat, calls: nat, category: string, group: Option<string>)

  datatype Binding = Binding(owner: Owner, attribute: string, probe: string)

  /** One entered `patch.object`: what it saved, and whether the owner held the attribute itself. */
  datatype Patch = Patch(owner: Owner, attribute: string, local: bool, original: Value)

  /** The interpreter's attributes and the tripwire's fields; `names` is the insertion order of the
      probe dictionary. */
  datatype State = State(attributes: Attributes, stack: seq<Patch>, names: seq<string>,
                         probes: map<string, Probe>, bindings: set<Binding>, forbidden: seq<string>)

  function Untouched(attributes: Attributes): State {
    State(attributes, [], [], map[], {}, [])
  }

  /** category.rstrip("s") */
  function StripTrailingS(s: string): string {
    if s != "" && s[|s| - 1] == 's' then StripTrailingS(s[..|s| - 1]) else s
  }

  // What each operation does to the state.

  /** `self._probes.setdefault` with a fresh record. */
  function Record(s: State, probe: string, category: string, group: Option<string>): State {
    if probe in s.probes then s
    else s.(names := s.names + [probe], probes := s.probes[probe := Probe(false, 0, 0, category, group)])
  }

  function Bind(s: State, bases: Bases, owner: Owner, attribute: string, probe: string): State
    requires probe in s.probes && HasAttr(s.attributes, bases, owner, attribute)
  {
    var key, p := (owner, attribute), s.probes[probe];
    var saved := Lookup(s.attributes, bases, owner, attribute).value;
    s.(attributes := s.attributes[key := Blocked(probe)],
       stack := s.stack + [Patch(owner, attribute, key in s.attributes, saved)],
       bindings := s.bindings + {Binding(owner, attribute, probe)},
       probes := s.probes[probe := p.(armed := true, armedBindings := p.armedBindings + 1)])
  }

  datatype Action =
    | Arm(owner: Owner, attribute: string, category: string, group: Option<string>, probe: string)
    | Missing(category: string, group: Option<string>, probe: string)
    | Invoke(owner: Owner, attribute: string)
    | Define(owner: Owner, attribute: string, value: Value)
    | Forbid(modules: seq<string>)

  function Armed(s: State, bases: Bases, a: Action): State
    requires a.Arm?
  {
    var recorded := Record(s, a.probe, StripTrailingS(a.category), a.group);
    if !HasAttr(recorded.attributes, bases, a.owner, a.attribute)
       || Binding(a.owner, a.attribute, a.probe) in recorded.bindings
    then recorded
    else Bind(recorded, bases, a.owner, a.attribute, a.probe)
  }

  /** The probe whose stub a call of owner.attribute runs into. */
  function Tripped(s: State, bases: Bases, owner: Owner, attribute: string): Option<string> {
    match Lookup(s.attributes, bases, owner, attribute)
    case Some(Blocked(probe)) => if probe in s.probes then Some(probe) else None
    case _ => None
  }

  function Counted(s: State, probe: string): State
    requires probe in s.probes
  {
    var p := s.probes[probe];
    s.(probes := s.probes[probe := p.(calls := p.calls + 1)])
  }

  /** One step of a session: the tripwire arms a probe or records a missing one, the code under
      parse calls or assigns an attribute, or the forbidden imports are noted. */
  function Step(s: State, bases: Bases, a: Action): State {
    match a
    case Arm(_, _, _, _, _) => Armed(s, bases, a)
    case Missing(category, group, probe) => Record(s, probe, category, group)
    case Invoke(owner, attribute) =>
      (match Tripped(s, bases, owner, attribute) case Some(probe) => Counted(s, probe) case None => s)
    case Define(owner, attribute, value) => s.(attributes := s.attributes[(owner, attribute) := value])
    case Forbid(modules) => s.(forbidden := modules)
  }

  function Run(s: State, bases: Bases, actions: seq<Action>): State {
    if actions == [] then s else Step(Run(s, bases, actions[..|actions| - 1]), bases, actions[|actions| - 1])
  }

  /** The exit of one `patch.object`. */
  function Undo(attributes: Attributes, bases: Bases, patch: Patch): Attributes {
    var key := (patch.owner, patch.attribute);
    if patch.local then attributes[key := patch.original]
    else
      var cleared := attributes - {key};
      if HasAttr(cleared, bases, patch.owner, patch.attribute) then cleared else cleared[key := patch.original]
  }

  /** The exit of the whole stack, last entered first. */
  function Unwind(attributes: Attributes, bases: Bases, stack: seq<Patch>): Attributes
    decreases |stack|
  {
    if stack == [] then attributes
    else Unwind(Undo(attributes, bases, stack[|stack| - 1]), bases, stack[..|stack| - 1])
  }

  // The probes that are armed.

  datatype Candidate = Candidate(attribute: string, category: string, group: string, probe: string)

  const KUBERNETES_PROBE := "kubernetes.client.ApiClient.call_api"

  /** The five probes armed on entering. */
  function EntryCandidates(): seq<Candidate> {
    [Candidate("create_connection", "network", "network", "socket.create_connection"),
     Candidate("connect", "network", "network", "socket.socket.connect"),
     Candidate("connect_ex", "network", "network", "socket.socket.connect_ex"),
     Candidate("getaddrinfo", "network", "network", "socket.getaddrinfo"),
     Candidate("connect", "database", "database_session", "sqlite3.connect")]
  }

  /** The probes armed where the installed environment has their module and owner. */
  function InstalledCandidates(): seq<Candidate> {
    [Candidate("connect", "database", "database_session", "sqlalchemy.Engine.connect"),
     Candidate("Session", "database", "database_session", "airflow.settings.Session"),
     Candidate("get", "secret", "airflow_metadata", "airflow.Variable.get"),
     Candidate("get", "secret", "airflow_metadata", "airflow.Variable.get"),
     Candidate("get_connection", "secret", "airflow_metadata", "airflow.Connection.get"),
     Candidate("get_connection_from_secrets", "secret", "airflow_metadata", "airflow.Connection.get"),
     Candidate("call_api", "kubernetes", "kubernetes_api", KUBERNETES_PROBE)]
  }

  function ArmOf(c: Candidate, owner: Owner): Action {
    Arm(owner, c.attribute, c.category, Some(c.group), c.probe)
  }

  /** Arming a candidate on the owner found for it, or recording that there is none. */
  function TryArm(c: Candidate, owner: Option<Owner>): Action {
    match owner
    case Some(found) => ArmOf(c, found)
    case None => Missing(c.category, Some(c.group), c.probe)
  }

  function TryArmAll(candidates: seq<Candidate>, owners: seq<Option<Owner>>): (r: seq<Action>)
    requires |candidates| == |owners|
    ensures |r| == |owners|
    ensures forall i | 0 <= i < |r| :: r[i] == TryArm(candidates[i], owners[i])
  {
    seq(|owners|, i requires 0 <= i < |owners| => TryArm(candidates[i], owners[i]))
  }

  function Present(owners: seq<Owner>): seq<Option<Owner>> {
    seq(|owners|, i requires 0 <= i < |owners| => Some(owners[i]))
  }

  // The report.

  function RequiredProbes(): seq<(string, seq<string>)> {
    [("network",
      ["socket.create_connection", "socket.socket.connect", "socket.socket.connect_ex", "socket.getaddrinfo"]),
     ("database_session", ["sqlite3.connect", "sqlalchemy.Engine.connect", "airflow.settings.Session"]),
     ("airflow_metadata", ["airflow.Variable.get", "airflow.Connection.get"]),
     ("kubernetes_api", [KUBERNETES_PROBE])]
  }

  predicate IsArmed(probes: map<string, Probe>, probe: string) {
    probe in probes && probes[probe].armed
  }

  function MissingProbes(probes: map<string, Probe>, required: seq<string>): seq<string> {
    Filter(required, probe => !IsArmed(probes, probe))
  }

  function MissingGroups(probes: map<string, Probe>, groups: seq<(string, seq<string>)>): seq<string> {
    if groups == [] then []
    else
      var last := groups[|groups| - 1];
      MissingGroups(probes, groups[..|groups| - 1])
      + if MissingProbes(probes, last.1) != [] then [last.0] else []
  }

  /** The sum of the calls over the probes whose category is selected. */
  function SumCalls(names: seq<string>, probes: map<string, Probe>, select: string -> bool): nat {
    if names == [] then 0
    else
      var name := names[|names| - 1];
      SumCalls(names[..|names| - 1], probes, select)
      + if name in probes && select(probes[name].category) then probes[name].calls else 0
  }

  function CategoryCalls(names: seq<string>, probes: map<string, Probe>, category: string): nat {
    SumCalls(names, probes, c => c == category)
  }

  datatype GroupCoverage = GroupCoverage(group: string, required: seq<string>, missing: seq<string>, complete: bool)

  function CoverageOf(probes: map<string, Probe>, group: (string, seq<string>)): GroupCoverage {
    var missing := MissingProbes(probes, group.1);
    GroupCoverage(group.0, group.1, missing, missing == [])
  }

  function Coverage(probes: map<string, Probe>, groups: seq<(string, seq<string>)>): (r: seq<GroupCoverage>)
    ensures |r| == |groups| && forall i | 0 <= i < |r| :: r[i] == CoverageOf(probes, groups[i])
  {
    if groups == [] then []
    else Coverage(probes, groups[..|groups| - 1]) + [CoverageOf(probes, groups[|groups| - 1])]
  }

  /** The records of the named probes. */
  function ProbeTable(names: seq<string>, probes: map<string, Probe>): seq<(string, Probe)> {
    if names == [] then []
    else (if names[0] in probes then [(names[0], probes[names[0]])] else []) + ProbeTable(names[1..], probes)
  }

  datatype Report = Report(passed: bool, coverageComplete: bool, missingGroups: seq<string>,
                           groups: seq<GroupCoverage>, network: nat, database: nat, secret: nat, kubernetes: nat,
                           probes: seq<(string, Probe)>, forbidden: seq<string>)

  function ReportOf(s: State): Report {
    var missing := MissingGroups(s.probes, RequiredProbes());
    var network, database := CategoryCalls(s.names, s.probes, "network"), CategoryCalls(s.names, s.probes, "database");
    var secret := CategoryCalls(s.names, s.probes, "secret");
    var kubernetes := CategoryCalls(s.names, s.probes, "kubernetes");
    var passed := missing == [] && network == 0 && database == 0 && secret == 0 && kubernetes == 0 && s.forbidden == [];
    Report(passed, missing == [], missing, Coverage(s.probes, RequiredProbes()), network, database, secret, kubernetes,
           ProbeTable(Sort(s.names, StringLeq), s.probes), s.forbidden)
  }

  /** The attributes of the running interpreter. */
  class Interpreter {
    const bases: Bases
    var attributes: Attributes

    constructor (attributes: Attributes, bases: Bases)
      ensures this.attributes == attributes && this.bases == bases
    {
      this.attributes, this.bases := attributes, bases;
    }

    function GetAttr(owner: Owner, attribute: string): Option<Value>
      reads this
    {
      Lookup(attributes, bases, owner, attribute)
    }

    method SetAttr(owner: Owner, attribute: string, value: Value)
      modifies this
      ensures attributes == old(attributes)[(owner, attribute) := value]
    {
      attributes := attributes[(owner, attribute) := value];
    }

    method DelAttr(owner: Owner, attribute: string)
      modifies this
      ensures attributes == old(attributes) - {(owner, attribute)}
    {
      attributes := attributes - {(owner, attribute)};
    }
  }

  /** `ParseSideEffectTripwire` */
  class ParseSideEffectTripwire {
    const interpreter: Interpreter
    var entered: bool
    var stack: seq<Patch>
    var names: seq<string>
    var probes: map<string, Probe>
    var bindings: set<Binding>
    var forbidden: seq<string>

    constructor (interpreter: Interpreter)
      ensures this.interpreter == interpreter && !entered
      ensures Current() == Untouched(interpreter.attributes)
    {
      this.interpreter := interpreter;
      entered, stack, names, probes, bindings, forbidden := false, [], [], map[], {}, [];
    }

    ghost function Current(): State
      reads this, interpreter
    {
      State(interpreter.attributes, stack, names, probes, bindings, forbidden)
    }

    /** `self._probes.setdefault` */
    method SetDefault(probe: string, category: string, group: Option<string>)
      modifies this
      ensures Current() == Record(old(Current()), probe, category, group)
      ensures probe in probes && entered == old(entered)
    {
      if probe !in probes {
        names := names + [probe];
        probes := probes[probe := Probe(false, 0, 0, category, group)];
      }
    }

    /** `stack.enter_context(patch.object(owner, attribute, blocked))` */
    method EnterPatch(owner: Owner, attribute: string, stub: Value)
      requires interpreter.GetAttr(owner, attribute).Some?
      modifies this`stack, interpreter
      ensures interpreter.attributes == old(interpreter.attributes)[(owner, attribute) := stub]
      ensures stack == old(stack) + [Patch(owner, attribute, (owner, attribute) in old(interpreter.attributes),
                                           old(interpreter.GetAttr(owner, attribute)).value)]
    {
      var local := (owner, attribute) in interpreter.attributes;
      stack := stack + [Patch(owner, attribute, local, interpreter.GetAttr(owner, attribute).value)];
      interpreter.SetAttr(owner, attribute, stub);
    }

    /** `arm`; None where it raises because the tripwire was not entered. */
    method Arm(owner: Owner, attribute: string, category: string, group: Option<string>, probe: string)
      returns (r: Option<bool>)
      modifies this, interpreter
      ensures entered == old(entered)
      ensures r.Some? <==> entered
      ensures !entered ==> Current() == old(Current())
      ensures entered ==>
                Current() == Step(old(Current()), interpreter.bases,
                                  Action.Arm(owner, attribute, category, group, probe))
      ensures entered ==>
                r.value == (old(interpreter.GetAttr(owner, attribute)).Some? || IsArmed(probes, probe))
    {
      if !entered {
        return None;
      }
      SetDefault(probe, StripTrailingS(category), group);
      if interpreter.GetAttr(owner, attribute).None? {
        return Some(probes[probe].armed);
      }
      if Binding(owner, attribute, probe) in bindings {
        return Some(true);
      }
      EnterPatch(owner, attribute, Blocked(probe));
      bindings := bindings + {Binding(owner, attribute, probe)};
      probes := probes[probe := probes[probe].(armed := true)];
      probes := probes[probe := probes[probe].(armedBindings := probes[probe].armedBindings + 1)];
      r := Some(true);
    }

    /** `_record_missing` */
    method RecordMissing(c: Candidate)
      modifies this
      ensures entered == old(entered)
      ensures Current() == Step(old(Current()), interpreter.bases, Missing(c.category, Some(c.group), c.probe))
    {
      SetDefault(c.probe, c.category, Some(c.group));
    }

    /** `__enter__`, given the owners of the five attributes. */
    method Enter(owners: seq<Owner>)
      requires |owners| == |EntryCandidates()| && stack == []
      modifies this, interpreter
      ensures entered
      ensures Current() == Run(old(Current()), interpreter.bases, TryArmAll(EntryCandidates(), Present(owners)))
    {
      hide Step;
      ghost var before := Current();
      entered, stack := true, [];
      var candidates := EntryCandidates();
      ghost var actions := TryArmAll(candidates, Present(owners));
      for i := 0 to |candidates|
        invariant entered && Current() == Run(before, interpreter.bases, actions[..i])
      {
        assert actions[..i + 1][..i] == actions[..i];
        var c := candidates[i];
        var _ := Arm(owners[i], c.attribute, c.category, Some(c.group), c.probe);
        assert actions[i] == ArmOf(c, owners[i]);
      }
      assert actions[..|candidates|] == actions;
    }

    /** `arm_installed_environment`, given the owner that importing each candidate's module yields.
        It raises at the first candidate with an owner if the tripwire was not entered. */
    method ArmInstalledEnvironment(owners: seq<Option<Owner>>) returns (raised: bool, ghost done: nat)
      requires |owners| == |InstalledCandidates()|
      modifies this, interpreter
      ensures entered == old(entered)
      ensures done <= |owners| && raised == (done < |owners|)
      ensures raised ==> !entered && owners[done].Some?
      ensures !entered ==> forall i | 0 <= i < done :: owners[i].None?
      ensures Current() == Run(old(Current()), interpreter.bases, TryArmAll(InstalledCandidates(), owners)[..done])
    {
      hide Step;
      ghost var before := Current();
      var candidates := InstalledCandidates();
      ghost var actions := TryArmAll(candidates, owners);
      for i := 0 to |candidates|
        invariant entered == old(entered) && Current() == Run(before, interpreter.bases, actions[..i])
        invariant !entered ==> forall k | 0 <= k < i :: owners[k].None?
      {
        assert actions[..i + 1][..i] == actions[..i];
        var c := candidates[i];
        if owners[i].None? {
          RecordMissing(c);
        } else {
          var armed := Arm(owners[i].value, c.attribute, c.category, Some(c.group), c.probe);
          if armed.None? {
            return true, i;
          }
        }
        assert actions[i] == TryArm(c, owners[i]);
      }
      raised, done := false, |candidates|;
    }

    /** A call of owner.attribute by the code under parse; `blocked` says that a stub counted it
        and raised. */
    method Call(owner: Owner, attribute: string) returns (blocked: bool)
      modifies this
      ensures Current() == Step(old(Current()), interpreter.bases, Invoke(owner, attribute))
      ensures blocked <==> Tripped(old(Current()), interpreter.bases, owner, attribute).Some?
    {
      blocked := false;
      match interpreter.GetAttr(owner, attribute)
      case Some(Blocked(probe)) =>
        if probe in probes {
          probes := probes[probe := probes[probe].(calls := probes[probe].calls + 1)];
          blocked := true;
        }
      case _ =>
    }

    /** `record_forbidden_imports` */
    method RecordForbiddenImports(before: set<string>, after: set<string>)
      modifies this
      ensures Current() == Step(old(Current()), interpreter.bases, Forbid(forbidden))
      ensures Sorted(forbidden, StringLeq) && NoDuplicates(forbidden)
      ensures forall name :: name in forbidden <==> name in after && name !in before && Forbidden(name)
    {
      hide Forbidden, StringLeq;
      var modules := ForbiddenParseImports(before, after);
      forbidden := modules;
    }

    /** `__exit__`: the patches are left in reverse order. */
    method Exit()
      requires entered
      modifies this`stack, interpreter
      ensures interpreter.attributes == Unwind(old(interpreter.attributes), interpreter.bases, old(stack))
      ensures stack == []
    {
      while stack != []
        invariant Unwind(interpreter.attributes, interpreter.bases, stack)
                  == Unwind(old(interpreter.attributes), interpreter.bases, old(stack))
        decreases |stack|
      {
        var patch := stack[|stack| - 1];
        if patch.local {
          interpreter.SetAttr(patch.owner, patch.attribute, patch.original);
        } else {
          interpreter.DelAttr(patch.owner, patch.attribute);
          if interpreter.GetAttr(patch.owner, patch.attribute).None? {
            interpreter.SetAttr(patch.owner, patch.attribute, patch.original);
          }
        }
        stack := stack[..|stack| - 1];
      }
    }

    /** `report` */
    method MakeReport() returns (r: Report)
      ensures r == ReportOf(Current())
    {
      var required := RequiredProbes();
      var missing: seq<string>, groups: seq<GroupCoverage> := [], [];
      for i := 0 to |required|
        invariant missing == MissingGroups(probes, required[..i]) && groups == Coverage(probes, required[..i])
      {
        assert required[..i + 1][..i] == required[..i];
        var absent := MissingProbes(probes, required[i].1);
        groups := groups + [GroupCoverage(required[i].0, required[i].1, absent, absent == [])];
        if absent != [] {
          missing := missing + [required[i].0];
        }
      }
      assert required[..|required|] == required;
      var network, database := CategoryCalls(names, probes, "network"), CategoryCalls(names, probes, "database");
      var secret, kubernetes := CategoryCalls(names, probes, "secret"), CategoryCalls(names, probes, "kubernetes");
      var anyCalls := network != 0 || database != 0 || secret != 0 || kubernetes != 0;
      var complete := missing == [];
      r := Report(complete && !anyCalls && forbidden == [], complete, missing, groups, network, database, secret,
                  kubernetes, ProbeTable(Sort(names, StringLeq), probes), forbidden);
    }
  }
}
