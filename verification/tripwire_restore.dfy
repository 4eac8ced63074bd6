/** Leaving the tripwire restores every attribute, and until then every armed attribute is
    blocked. */
module TripwireRestore {
  import opened Ordering
  import opened Tripwire

  // Attribute lookup.

  lemma {:induction false} FoundIn(attributes: Attributes, order: seq<Owner>, attribute: string)
    ensures LookupIn(attributes, order, attribute).Some? <==> exists o | o in order :: (o, attribute) in attributes
  {
    if order != [] {
      var rest := order[1..];
      FoundIn(attributes, rest, attribute);
      assert order == [order[0]] + rest;
      assert order[0] in order && forall o :: o in order <==> o == order[0] || o in rest;
    }
  }

  /** An attribute that is found stays found when entries are added. */
  lemma FoundStays(before: Attributes, after: Attributes, bases: Bases, owner: Owner, attribute: string)
    requires before.Keys <= after.Keys && HasAttr(before, bases, owner, attribute)
    ensures HasAttr(after, bases, owner, attribute)
  {
    FoundIn(before, [owner] + bases(owner), attribute);
    FoundIn(after, [owner] + bases(owner), attribute);
  }

  lemma OwnEntryFirst(attributes: Attributes, bases: Bases, owner: Owner, attribute: string)
    requires (owner, attribute) in attributes
    ensures Lookup(attributes, bases, owner, attribute) == Some(attributes[(owner, attribute)])
  {
  }

  // The stack of patches.

  function KeyOf(patch: Patch): (Owner, string) {
    (patch.owner, patch.attribute)
  }

  predicate Patched(stack: seq<Patch>, key: (Owner, string)) {
    exists i | 0 <= i < |stack| :: KeyOf(stack[i]) == key
  }

  /** Each patch of the stack, when its turn to be undone comes, finds its entry in place, and an
      inherited attribute still there to be inherited. */
  ghost predicate Undoable(attributes: Attributes, bases: Bases, stack: seq<Patch>)
    decreases |stack|
  {
    stack == [] ||
    var last := stack[|stack| - 1];
    && KeyOf(last) in attributes
    && (!last.local ==> HasAttr(attributes - {KeyOf(last)}, bases, last.owner, last.attribute))
    && Undoable(Undo(attributes, bases, last), bases, stack[..|stack| - 1])
  }

  /** A patch undone right away leaves the attributes as they were. */
  lemma UndoPatch(attributes: Attributes, bases: Bases, owner: Owner, attribute: string, stub: Value)
    requires HasAttr(attributes, bases, owner, attribute)
    ensures var key := (owner, attribute);
            var patch := Patch(owner, attribute, key in attributes, Lookup(attributes, bases, owner, attribute).value);
            && Undo(attributes[key := stub], bases, patch) == attributes
            && (key !in attributes ==> HasAttr(attributes[key := stub] - {key}, bases, owner, attribute))
  {
    var key := (owner, attribute);
    if key in attributes {
      OwnEntryFirst(attributes, bases, owner, attribute);
      assert attributes[key := stub][key := attributes[key]] == attributes;
    } else {
      assert attributes[key := stub] - {key} == attributes;
    }
  }

  lemma UndoneAndAssigned(attributes: Attributes, bases: Bases, patch: Patch, key: (Owner, string), value: Value)
    requires KeyOf(patch) in attributes
    requires !patch.local ==> HasAttr(attributes - {KeyOf(patch)}, bases, patch.owner, patch.attribute)
    ensures !patch.local ==> HasAttr(attributes[key := value] - {KeyOf(patch)}, bases, patch.owner, patch.attribute)
    ensures Undo(attributes[key := value], bases, patch)
            == if key == KeyOf(patch) then Undo(attributes, bases, patch)
               else Undo(attributes, bases, patch)[key := value]
  {
    var cleared := attributes - {KeyOf(patch)};
    var after := attributes[key := value] - {KeyOf(patch)};
    if !patch.local {
      FoundStays(cleared, after, bases, patch.owner, patch.attribute);
    }
    if key == KeyOf(patch) {
      assert after == cleared;
      assert attributes[key := value][key := patch.original] == attributes[key := patch.original];
    } else {
      assert after == cleared[key := value];
      assert attributes[key := value][KeyOf(patch) := patch.original]
          == attributes[KeyOf(patch) := patch.original][key := value];
    }
  }

  /** An assignment from outside survives the unwinding exactly when the attribute is not patched. */
  lemma {:induction false} AssignedWhilePatched(attributes: Attributes, bases: Bases, stack: seq<Patch>,
                                                key: (Owner, string), value: Value)
    requires Undoable(attributes, bases, stack)
    ensures Undoable(attributes[key := value], bases, stack)
    ensures Unwind(attributes[key := value], bases, stack)
            == if Patched(stack, key) then Unwind(attributes, bases, stack)
               else Unwind(attributes, bases, stack)[key := value]
    decreases |stack|
  {
    if stack != [] {
      var last, rest := stack[|stack| - 1], stack[..|stack| - 1];
      assert Patched(stack, key) <==> Patched(rest, key) || KeyOf(last) == key;
      UndoneAndAssigned(attributes, bases, last, key, value);
      if key != KeyOf(last) {
        AssignedWhilePatched(Undo(attributes, bases, last), bases, rest, key, value);
      }
    }
  }

  // Whole sessions.

  /** What the attributes would be had the tripwire never been there: only the assignments of the
      code under parse, less those to an attribute patched at the time. */
  function WithoutTripwire(s: State, bases: Bases, actions: seq<Action>): Attributes {
    if actions == [] then s.attributes
    else
      var before, last := actions[..|actions| - 1], actions[|actions| - 1];
      var attributes := WithoutTripwire(s, bases, before);
      if last.Define? && !Patched(Run(s, bases, before).stack, (last.owner, last.attribute))
      then attributes[(last.owner, last.attribute) := last.value]
      else attributes
  }

  lemma StepRestores(s: State, bases: Bases, a: Action)
    requires Undoable(s.attributes, bases, s.stack)
    ensures var after := Step(s, bases, a);
            && Undoable(after.attributes, bases, after.stack)
            && Unwind(after.attributes, bases, after.stack)
               == if a.Define? && !Patched(s.stack, (a.owner, a.attribute))
                  then Unwind(s.attributes, bases, s.stack)[(a.owner, a.attribute) := a.value]
                  else Unwind(s.attributes, bases, s.stack)
  {
    if a.Define? {
      hide Undoable, Unwind, Patched;
      AssignedWhilePatched(s.attributes, bases, s.stack, (a.owner, a.attribute), a.value);
    } else if a.Arm? {
      hide Undoable, Unwind, HasAttr;
      if HasAttr(s.attributes, bases, a.owner, a.attribute) {
        PatchRestores(s.attributes, bases, s.stack, a.owner, a.attribute, Blocked(a.probe));
      }
    }
  }

  /** Patching one more attribute and leaving that patch is nothing. */
  lemma PatchRestores(attributes: Attributes, bases: Bases, stack: seq<Patch>, owner: Owner, attribute: string,
                      stub: Value)
    requires Undoable(attributes, bases, stack) && HasAttr(attributes, bases, owner, attribute)
    ensures var key := (owner, attribute);
            var patch := Patch(owner, attribute, key in attributes, Lookup(attributes, bases, owner, attribute).value);
            && Undoable(attributes[key := stub], bases, stack + [patch])
            && Unwind(attributes[key := stub], bases, stack + [patch]) == Unwind(attributes, bases, stack)
  {
    var key := (owner, attribute);
    var patch := Patch(owner, attribute, key in attributes, Lookup(attributes, bases, owner, attribute).value);
    UndoPatch(attributes, bases, owner, attribute, stub);
    hide HasAttr, Lookup, Undo;
    assert (stack + [patch])[..|stack + [patch]| - 1] == stack;
  }

  lemma {:induction false} RunRestores(s: State, bases: Bases, actions: seq<Action>)
    requires s.stack == []
    ensures var after := Run(s, bases, actions);
            && Undoable(after.attributes, bases, after.stack)
            && Unwind(after.attributes, bases, after.stack) == WithoutTripwire(s, bases, actions)
  {
    if actions != [] {
      var before := actions[..|actions| - 1];
      RunRestores(s, bases, before);
      StepRestores(Run(s, bases, before), bases, actions[|actions| - 1]);
    }
  }

  /** After any sequence of operations, one attribute armed under several probes included, leaving
      the tripwire puts every patched attribute back to what it was before it was first patched,
      inherited attributes to not being the owner's own, and keeps every other assignment. */
  lemma ExitRestores(attributes: Attributes, bases: Bases, actions: seq<Action>)
    ensures var last := Run(Untouched(attributes), bases, actions);
            Unwind(last.attributes, bases, last.stack) == WithoutTripwire(Untouched(attributes), bases, actions)
  {
    RunRestores(Untouched(attributes), bases, actions);
  }

  /** With no assignments from outside, nothing at all has changed. */
  lemma {:induction false} ExitRestoresAll(attributes: Attributes, bases: Bases, actions: seq<Action>)
    requires forall i | 0 <= i < |actions| :: !actions[i].Define?
    ensures var last := Run(Untouched(attributes), bases, actions);
            Unwind(last.attributes, bases, last.stack) == attributes
  {
    ExitRestores(attributes, bases, actions);
    NoAssignments(Untouched(attributes), bases, actions);
  }

  lemma {:induction false} NoAssignments(s: State, bases: Bases, actions: seq<Action>)
    requires forall i | 0 <= i < |actions| :: !actions[i].Define?
    ensures WithoutTripwire(s, bases, actions) == s.attributes
  {
    if actions != [] {
      NoAssignments(s, bases, actions[..|actions| - 1]);
    }
  }

  // What is blocked meanwhile.

  /** The bookkeeping of the tripwire. */
  ghost predicate Consistent(s: State) {
    && NoDuplicates(s.names)
    && (forall n :: n in s.names <==> n in s.probes)
    && (forall b | b in s.bindings :: b.probe in s.probes)
    && (forall p | p in s.probes ::
          && (s.probes[p].armed <==> s.probes[p].armedBindings > 0)
          && s.probes[p].armedBindings == |BindingsOf(s.bindings, p)|)
  }

  function BindingsOf(bindings: set<Binding>, probe: string): set<Binding> {
    set b | b in bindings && b.probe == probe
  }

  lemma RecordKeeps(s: State, probe: string, category: string, group: Option<string>)
    requires Consistent(s)
    ensures Consistent(Record(s, probe, category, group))
  {
    if probe !in s.probes {
      assert BindingsOf(s.bindings, probe) == {};
    }
  }

  lemma OneMoreBinding(bindings: set<Binding>, added: Binding, p: string)
    requires added !in bindings
    ensures |BindingsOf(bindings + {added}, p)| == |BindingsOf(bindings, p)| + if p == added.probe then 1 else 0
  {
    var more := if p == added.probe then {added} else {};
    assert BindingsOf(bindings + {added}, p) == BindingsOf(bindings, p) + more;
  }

  lemma BindKeeps(s: State, bases: Bases, owner: Owner, attribute: string, probe: string)
    requires Consistent(s) && probe in s.probes && HasAttr(s.attributes, bases, owner, attribute)
    requires Binding(owner, attribute, probe) !in s.bindings
    ensures Consistent(Bind(s, bases, owner, attribute, probe))
  {
    hide HasAttr, Lookup, BindingsOf;
    var added := Binding(owner, attribute, probe);
    var after := Bind(s, bases, owner, attribute, probe);
    assert after.bindings == s.bindings + {added} && after.names == s.names;
    forall p | p in after.probes
      ensures (after.probes[p].armed <==> after.probes[p].armedBindings > 0)
      ensures after.probes[p].armedBindings == |BindingsOf(after.bindings, p)|
    {
      OneMoreBinding(s.bindings, added, p);
    }
  }

  lemma StepKeeps(s: State, bases: Bases, a: Action)
    requires Consistent(s)
    ensures Consistent(Step(s, bases, a))
  {
    match a {
      case Arm(owner, attribute, category, group, probe) =>
        RecordKeeps(s, probe, StripTrailingS(category), group);
        ArmKeeps(s, bases, a);
      case Missing(category, group, probe) =>
        RecordKeeps(s, probe, category, group);
      case _ =>
    }
  }

  lemma ArmKeeps(s: State, bases: Bases, a: Action)
    requires a.Arm? && Consistent(Record(s, a.probe, StripTrailingS(a.category), a.group))
    ensures Consistent(Armed(s, bases, a))
  {
    hide Consistent;
    var recorded := Record(s, a.probe, StripTrailingS(a.category), a.group);
    if Armed(s, bases, a) != recorded {
      BindKeeps(recorded, bases, a.owner, a.attribute, a.probe);
    }
  }

  /** Whatever happens, a probe is armed exactly when it has bindings, and their recorded number
      is the number of bindings recorded for it. */
  lemma {:induction false} AlwaysConsistent(attributes: Attributes, bases: Bases, actions: seq<Action>)
    ensures Consistent(Run(Untouched(attributes), bases, actions))
  {
    if actions != [] {
      AlwaysConsistent(attributes, bases, actions[..|actions| - 1]);
      hide Consistent;
      StepKeeps(Run(Untouched(attributes), bases, actions[..|actions| - 1]), bases, actions[|actions| - 1]);
    }
  }

  /** `arm` returns True exactly when its probe is armed afterwards. */
  lemma ArmReports(s: State, bases: Bases, a: Action)
    requires Consistent(s) && a.Arm?
    ensures IsArmed(Armed(s, bases, a).probes, a.probe)
            <==> HasAttr(s.attributes, bases, a.owner, a.attribute) || IsArmed(s.probes, a.probe)
  {
    if Binding(a.owner, a.attribute, a.probe) in s.bindings {
      assert Binding(a.owner, a.attribute, a.probe) in BindingsOf(s.bindings, a.probe);
    }
  }

  /** No assignment goes to an attribute patched at the time. */
  predicate Respectful(s: State, bases: Bases, actions: seq<Action>) {
    forall i | 0 <= i < |actions| && actions[i].Define? ::
      !Patched(Run(s, bases, actions[..i]).stack, (actions[i].owner, actions[i].attribute))
  }

  /** Every armed attribute holds a stub of a recorded probe, and is on the stack. */
  ghost predicate Guarded(s: State) {
    forall b | b in s.bindings ::
      && Patched(s.stack, (b.owner, b.attribute))
      && (b.owner, b.attribute) in s.attributes
      && var value := s.attributes[(b.owner, b.attribute)];
         value.Blocked? && value.probe in s.probes
  }

  lemma StepGuards(s: State, bases: Bases, a: Action)
    requires Guarded(s)
    requires a.Define? ==> !Patched(s.stack, (a.owner, a.attribute))
    ensures Guarded(Step(s, bases, a))
  {
    var after := Step(s, bases, a);
    if a.Arm? && after.stack != s.stack {
      assert forall i | 0 <= i < |s.stack| :: after.stack[i] == s.stack[i];
      assert KeyOf(after.stack[|s.stack|]) == (a.owner, a.attribute);
    }
  }

  lemma {:induction false} RunGuards(s: State, bases: Bases, actions: seq<Action>)
    requires Guarded(s) && Respectful(s, bases, actions)
    ensures Guarded(Run(s, bases, actions))
  {
    if actions != [] {
      var before := actions[..|actions| - 1];
      assert Respectful(s, bases, before) by {
        assert forall i | 0 <= i < |before| :: before[..i] == actions[..i];
      }
      RunGuards(s, bases, before);
      StepGuards(Run(s, bases, before), bases, actions[|actions| - 1]);
    }
  }

  /** Until the exit, as long as nobody assigns to a patched attribute, every call of an attribute
      that was armed runs into a stub. */
  lemma ArmedIsBlocked(attributes: Attributes, bases: Bases, actions: seq<Action>, b: Binding)
    requires Respectful(Untouched(attributes), bases, actions)
    requires b in Run(Untouched(attributes), bases, actions).bindings
    ensures Tripped(Run(Untouched(attributes), bases, actions), bases, b.owner, b.attribute).Some?
  {
    RunGuards(Untouched(attributes), bases, actions);
    var s := Run(Untouched(attributes), bases, actions);
    OwnEntryFirst(s.attributes, bases, b.owner, b.attribute);
  }
}
