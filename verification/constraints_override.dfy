/** Deriving a constraints file without one provider pin. */
module ConstraintsOverride {
  import opened Bytes
  import opened Digests
  import opened Ordering
  import opened Text
  import opened ConstraintLines
  import opened ConstraintPins

  /** What one line means for one distribution. */
  datatype Class =
    | Keep
    | TargetPin(requirement: seq<Byte>, version: string)
    | Refuse(error: PinError)

  function ClassifyText(candidate: seq<Byte>, target: string): Class {
    match MatchPin(candidate)
    case None => Keep
    case Some(pin) =>
      match NormalizedDistribution(Ascii(pin.name))
      case Err(e) => Refuse(e)
      case Ok(name) =>
        if name != target then Keep
        else if !IsAscii(pin.version) then Refuse(VersionNotAscii)
        else
          match ValidatedVersion(Ascii(pin.version))
          case Err(e) => Refuse(e)
          case Ok(version) => if IsUtf8(candidate) then TargetPin(candidate, version) else Refuse(RequirementNotUtf8)
  }

  /** A matched pin with a valid name, by whether the name is the distribution's. */
  lemma ClassifyMatched(candidate: seq<Byte>, target: string, pin: Pin, name: string, version: string)
    requires MatchPin(candidate) == Some(pin) && NormalizedDistribution(Ascii(pin.name)) == Ok(name)
    requires IsAscii(pin.version) && ValidatedVersion(Ascii(pin.version)) == Ok(version) && IsUtf8(candidate)
    ensures ClassifyText(candidate, target) == if name == target then TargetPin(candidate, version) else Keep
  {
    hide MatchPin, NormalizedDistribution, ValidatedVersion, IsUtf8, IsAscii, Ascii;
  }

  function Classify(line: seq<Byte>, target: string): Class {
    ClassifyText(RstripBreaks(line), target)
  }

  datatype Collected = Collected(retained: seq<seq<Byte>>, removed: seq<(seq<Byte>, string)>)

  /** The loop over the lines, up to the first line it refuses. */
  function Collect(lines: seq<seq<Byte>>, target: string): Result<Collected, PinError> {
    if lines == [] then Ok(Collected([], []))
    else
      match Collect(lines[..|lines| - 1], target)
      case Err(e) => Err(e)
      case Ok(acc) =>
        match Classify(lines[|lines| - 1], target)
        case Keep => Ok(acc.(retained := acc.retained + [lines[|lines| - 1]]))
        case TargetPin(requirement, version) => Ok(acc.(removed := acc.removed + [(requirement, version)]))
        case Refuse(e) => Err(e)
  }

  /** The file digests in the evidence. */
  datatype FileDigests = FileDigests(sourceSha256: string, derivedSha256: string)

  /** The derived bytes and the evidence beside them, apart from the file digests. */
  datatype Derivation = Derivation(derived: seq<Byte>, distribution: string, constrainedVersion: string,
                                   requestedVersion: string, removedRequirement: seq<Byte>, preservedLineCount: nat)

  function Derive(source: seq<Byte>, distribution: string, requestedVersion: string): Result<Derivation, PinError> {
    match NormalizedDistribution(distribution)
    case Err(e) => Err(e)
    case Ok(target) =>
      match ValidatedVersion(requestedVersion)
      case Err(e) => Err(e)
      case Ok(requested) =>
        match Collect(SplitLines(source), target)
        case Err(e) => Err(e)
        case Ok(acc) =>
          if |acc.removed| != 1 then Err(PinCount(|acc.removed|))
          else Ok(Derivation(Join(acc.retained), target, acc.removed[0].1, requested, acc.removed[0].0, |acc.retained|))
  }

  /** `derive_provider_override_constraints` */
  method DeriveProviderOverrideConstraints(source: seq<Byte>, distribution: string, requestedVersion: string,
                                           hash: HashFunction)
    returns (r: Result<(Derivation, FileDigests), PinError>)
    ensures match Derive(source, distribution, requestedVersion)
            case Ok(d) => r == Ok((d, FileDigests("sha256:" + hash(source), "sha256:" + hash(d.derived))))
            case Err(e) => r == Err(e)
  {
    hide Classify, SplitLines, Join, NormalizedDistribution, ValidatedVersion;
    var target := NormalizedDistribution(distribution);
    if target.Err? {
      return Err(target.error);
    }
    var requested := ValidatedVersion(requestedVersion);
    if requested.Err? {
      return Err(requested.error);
    }
    var lines := SplitLines(source);
    var retained: seq<seq<Byte>>, removed: seq<(seq<Byte>, string)> := [], [];
    for i := 0 to |lines|
      invariant Collect(lines[..i], target.value) == Ok(Collected(retained, removed))
    {
      var line := lines[i];
      assert lines[..i + 1][..i] == lines[..i];
      match Classify(line, target.value)
      case Refuse(e) =>
        RefusedLine(lines, i, target.value);
        return Err(e);
      case TargetPin(requirement, version) =>
        removed := removed + [(requirement, version)];
      case Keep =>
        retained := retained + [line];
    }
    assert lines[..|lines|] == lines;
    if |removed| != 1 {
      return Err(PinCount(|removed|));
    }
    var derived := Join(retained);
    r := Ok((Derivation(derived, target.value, removed[0].1, requested.value, removed[0].0, |retained|),
             FileDigests("sha256:" + hash(source), "sha256:" + hash(derived))));
  }

  lemma {:induction false} RefusedLine(lines: seq<seq<Byte>>, i: nat, target: string)
    requires i < |lines| && Collect(lines[..i], target).Ok? && Classify(lines[i], target).Refuse?
    ensures Collect(lines, target) == Err(Classify(lines[i], target).error)
  {
    hide Classify;
    var n := |lines| - 1;
    if i < n {
      assert lines[..n][..i] == lines[..i];
      RefusedLine(lines[..n], i, target);
    }
  }

  // When the loop finds exactly one pin.

  /** Line i is the distribution's only pin and no line is refused. */
  ghost predicate OnlyPin(lines: seq<seq<Byte>>, i: nat, target: string) {
    && i < |lines|
    && Classify(lines[i], target).TargetPin?
    && forall k | 0 <= k < |lines| && k != i :: Classify(lines[k], target) == Keep
  }

  ghost predicate AllKept(lines: seq<seq<Byte>>, target: string) {
    forall k | 0 <= k < |lines| :: Classify(lines[k], target) == Keep
  }

  lemma {:induction false} CollectKept(lines: seq<seq<Byte>>, target: string)
    requires AllKept(lines, target)
    ensures Collect(lines, target) == Ok(Collected(lines, []))
  {
    if lines == [] {
    } else {
      hide Classify, Collect;
      var before, last := lines[..|lines| - 1], lines[|lines| - 1];
      assert Classify(last, target) == Keep && AllKept(before, target);
      hide AllKept;
      CollectKept(before, target);
      KeptLast(lines, target);
      FrontAndLast(lines);
    }
  }

  lemma KeptLast(lines: seq<seq<Byte>>, target: string)
    requires lines != [] && Classify(lines[|lines| - 1], target) == Keep
    requires Collect(lines[..|lines| - 1], target).Ok?
    ensures var acc := Collect(lines[..|lines| - 1], target).value;
            Collect(lines, target) == Ok(acc.(retained := acc.retained + [lines[|lines| - 1]]))
  {
  }

  lemma {:induction false} CollectOnly(lines: seq<seq<Byte>>, i: nat, target: string)
    requires OnlyPin(lines, i, target)
    ensures var pin := Classify(lines[i], target);
            Collect(lines, target) == Ok(Collected(Without(lines, i), [(pin.requirement, pin.version)]))
  {
    hide Classify;
    var n := |lines| - 1;
    var init := lines[..n];
    if i == n {
      CollectKept(init, target);
      assert Without(lines, i) == init;
      var pin := (Classify(lines[i], target).requirement, Classify(lines[i], target).version);
      assert Collect(init, target) == Ok(Collected(init, []));
      assert [] + [pin] == [pin];
    } else {
      CollectOnly(init, i, target);
      assert Without(lines, i) == Without(init, i) + [lines[n]];
    }
  }

  lemma {:induction false} CollectIsClean(lines: seq<seq<Byte>>, target: string)
    requires Collect(lines, target).Ok?
    ensures forall k | 0 <= k < |lines| :: !Classify(lines[k], target).Refuse?
    ensures Collect(lines, target).value.removed == [] ==> AllKept(lines, target)
  {
    hide Classify;
    if lines != [] {
      CollectIsClean(lines[..|lines| - 1], target);
    }
  }

  lemma {:induction false} CollectFinds(lines: seq<seq<Byte>>, target: string) returns (i: nat)
    requires Collect(lines, target).Ok? && |Collect(lines, target).value.removed| == 1
    ensures OnlyPin(lines, i, target)
  {
    hide Classify;
    var n := |lines| - 1;
    if Classify(lines[n], target).TargetPin? {
      CollectIsClean(lines[..n], target);
      i := n;
    } else {
      i := CollectFinds(lines[..n], target);
    }
  }

  /** A derivation succeeds exactly when one line is the distribution's only pin and nothing is
      refused; then it removes that whole line, terminator included, and keeps every other byte
      in order. The evidence names the version of that pin and the requested one, both stripped. */
  lemma DeriveRemovesOneLine(source: seq<Byte>, distribution: string, requestedVersion: string) returns (i: nat)
    requires Derive(source, distribution, requestedVersion).Ok?
    ensures var lines, d := SplitLines(source), Derive(source, distribution, requestedVersion).value;
            && NormalizedDistribution(distribution) == Ok(d.distribution)
            && OnlyPin(lines, i, d.distribution)
            && source == Join(lines[..i]) + lines[i] + Join(lines[i + 1..])
            && d.derived == Join(lines[..i]) + Join(lines[i + 1..])
            && d.removedRequirement == Body(lines[i])
            && d.preservedLineCount == |lines| - 1
            && d.requestedVersion == Strip(requestedVersion)
            && exists pin :: IsPin(Body(lines[i]), pin) && NormalizedDistribution(Ascii(pin.name)) == Ok(d.distribution)
                             && d.constrainedVersion == Strip(Ascii(pin.version))
  {
    hide Classify, Collect, SplitLines, Join, NormalizedDistribution, ValidatedVersion;
    var lines, target := SplitLines(source), NormalizedDistribution(distribution).value;
    i := CollectFinds(lines, target);
    CollectOnly(lines, i, target);
    JoinWithout(lines, i);
    JoinSplit(source);
    SplitIsWellSplit(source);
    PinRequirement(lines[i], target);
    RequestedStripped(requestedVersion);
  }

  lemma RequestedStripped(version: string)
    requires ValidatedVersion(version).Ok?
    ensures ValidatedVersion(version).value == Strip(version)
  {
  }

  lemma PinRequirement(line: seq<Byte>, target: string)
    requires IsLine(line) && Classify(line, target).TargetPin?
    ensures Classify(line, target).requirement == Body(line)
    ensures exists pin :: IsPin(Body(line), pin) && NormalizedDistribution(Ascii(pin.name)) == Ok(target)
                          && Classify(line, target).version == Strip(Ascii(pin.version))
  {
    RstripIsBody(line);
    var pin := MatchPin(Body(line)).value;
    MatcherExact(Body(line), pin);
    hide MatchPin, IsPin, NormalizedDistribution, Strip, Body, RstripBreaks;
  }

  lemma DeriveSucceeds(source: seq<Byte>, distribution: string, requestedVersion: string, i: nat)
    requires NormalizedDistribution(distribution).Ok? && ValidatedVersion(requestedVersion).Ok?
    requires OnlyPin(SplitLines(source), i, NormalizedDistribution(distribution).value)
    ensures Derive(source, distribution, requestedVersion).Ok?
    ensures Derive(source, distribution, requestedVersion).value.derived == Join(Without(SplitLines(source), i))
  {
    hide Classify, Collect, SplitLines, Join, NormalizedDistribution, ValidatedVersion;
    CollectOnly(SplitLines(source), i, NormalizedDistribution(distribution).value);
  }

  // Deriving again.

  lemma ClassifyByBody(a: seq<Byte>, b: seq<Byte>, target: string)
    requires IsLine(a) && IsLine(b) && Body(a) == Body(b)
    ensures Classify(a, target) == Classify(b, target)
  {
    RstripIsBody(a);
    RstripIsBody(b);
  }

  lemma EmptyLineKept(target: string)
    ensures Classify([LF], target) == Keep
  {
    assert RstripBreaks([LF]) == RstripBreaks([]) == [];
  }

  /** Where each line of the rest stands after re-splitting, and how it is classified. */
  lemma ResplitClasses(lines: seq<seq<Byte>>, i: nat, target: string)
    requires WellSplit(lines) && i < |lines|
    requires forall k | 0 <= k < |lines| && k != i :: Classify(lines[k], target) == Keep
    ensures AllKept(Resplit(lines, i), target)
  {
    hide Classify;
    var after := Resplit(lines, i);
    if Fuses(lines, i) {
      FusedLine(lines[i - 1]);
      ClassifyByBody(lines[i - 1] + [LF], lines[i - 1], target);
    }
    forall k | 0 <= k < |after| ensures Classify(after[k], target) == Keep {
      if Fuses(lines, i) {
        assert after[k] == if k < i - 1 then lines[k] else if k == i - 1 then lines[i - 1] + [LF] else lines[k + 2];
      } else {
        assert after[k] == if k < i then lines[k] else lines[k + 1];
      }
    }
  }

  /** Deriving again from the result, with any spelling of the same distribution, always fails
      because no pin is left, also when the result re-splits into fewer lines. */
  lemma DeriveTwiceFails(source: seq<Byte>, distribution: string, requested: string, spelling: string,
                         requested': string)
    requires Derive(source, distribution, requested).Ok?
    requires NormalizedDistribution(spelling) == NormalizedDistribution(distribution)
    requires ValidatedVersion(requested').Ok?
    ensures Derive(Derive(source, distribution, requested).value.derived, spelling, requested') == Err(PinCount(0))
  {
    hide Classify, Collect, SplitLines, Join, NormalizedDistribution, ValidatedVersion;
    var i := DeriveRemovesOneLine(source, distribution, requested);
    var lines, target := SplitLines(source), NormalizedDistribution(distribution).value;
    SplitIsWellSplit(source);
    JoinWithout(lines, i);
    SplitWithout(source, i);
    ResplitClasses(lines, i, target);
    CollectKept(Resplit(lines, i), target);
  }

  // Deriving for two distributions.

  /** Line j's place after line i was taken out and the rest re-split. */
  function Shifted(lines: seq<seq<Byte>>, i: nat, j: nat): nat
    requires i < |lines| && j < |lines| && i != j
  {
    if j < i then j else if Fuses(lines, i) then (if j == i + 1 then i - 1 else j - 2) else j - 1
  }

  /** The other distribution's pin survives the removal, alone. */
  lemma PinSurvives(lines: seq<seq<Byte>>, i: nat, j: nat, target: string)
    requires WellSplit(lines) && i < |lines| && i != j && OnlyPin(lines, j, target)
    ensures OnlyPin(Resplit(lines, i), Shifted(lines, i, j), target)
  {
    EmptyLineKept(target);
    hide Classify;
    var after, j' := Resplit(lines, i), Shifted(lines, i, j);
    if Fuses(lines, i) {
      LfLine(lines[i + 1]);
      FusedLine(lines[i - 1]);
      ClassifyByBody(lines[i - 1] + [LF], lines[i - 1], target);
      forall k | 0 <= k < |after|
        ensures Classify(after[k], target) == Classify(lines[if k < i then k else k + 2], target)
      {
      }
    } else {
      forall k | 0 <= k < |after| ensures after[k] == lines[if k < i then k else k + 1] {
      }
    }
  }

  /** Pin j's line ends in a bare CR, pin i's line comes next, and an empty line follows. */
  predicate EntangledAt(lines: seq<seq<Byte>>, i: nat, j: nat) {
    i < |lines| && j + 1 == i && Fuses(lines, i)
  }

  /** The bytes without lines lo < hi, and without the line after hi if `extra` says so. */
  function WithoutBoth(lines: seq<seq<Byte>>, lo: nat, hi: nat, extra: bool): seq<Byte>
    requires lo < hi < |lines| && (extra ==> hi + 1 < |lines|)
  {
    Join(lines[..lo]) + Join(lines[lo + 1..hi]) + Join(lines[if extra then hi + 2 else hi + 1..])
  }

  /** What is left when both pins are gone, pin i first: an entangled pin j takes the empty line
      behind pin i with it. */
  lemma BothGone(lines: seq<seq<Byte>>, i: nat, j: nat)
    requires WellSplit(lines) && i < |lines| && j < |lines| && i != j
    requires Fuses(lines, i) ==> j != i + 1
    ensures Shifted(lines, i, j) < |Resplit(lines, i)|
    ensures Join(Without(Resplit(lines, i), Shifted(lines, i, j)))
         == WithoutBoth(lines, if i < j then i else j, if i < j then j else i, EntangledAt(lines, i, j))
  {
    if EntangledAt(lines, i, j) {
      GoneEntangled(lines, i, j);
    } else if Fuses(lines, i) {
      if j < i {
        GoneFusedBefore(lines, i, j);
      } else {
        GoneFusedAfter(lines, i, j);
      }
    } else {
      GoneApart(lines, i, j);
    }
  }

  lemma GoneEntangled(lines: seq<seq<Byte>>, i: nat, j: nat)
    requires i < |lines| && j + 1 == i && Fuses(lines, i)
    ensures Join(Without(Resplit(lines, i), j)) == WithoutBoth(lines, j, i, true)
  {
    hide EndsInBareCr, StartsWithLf, Join;
    assert Without(Resplit(lines, i), j) == lines[..j] + [] + lines[i + 2..];
    JoinThree(lines[..j], [], lines[i + 2..]);
    assert lines[j + 1..i] == [];
  }

  lemma GoneApart(lines: seq<seq<Byte>>, i: nat, j: nat)
    requires i < |lines| && j < |lines| && i != j && !Fuses(lines, i)
    ensures Join(Without(Resplit(lines, i), Shifted(lines, i, j)))
         == WithoutBoth(lines, if i < j then i else j, if i < j then j else i, false)
  {
    hide Fuses, Join;
    var lo, hi := if i < j then i else j, if i < j then j else i;
    assert Without(Without(lines, i), Shifted(lines, i, j)) == lines[..lo] + lines[lo + 1..hi] + lines[hi + 1..];
    JoinThree(lines[..lo], lines[lo + 1..hi], lines[hi + 1..]);
  }

  lemma BeforeFused(lines: seq<seq<Byte>>, i: nat, j: nat)
    requires i < |lines| && Fuses(lines, i) && j + 1 < i
    ensures Without(Resplit(lines, i), j)
         == (lines[..j] + lines[j + 1..i - 1]) + [lines[i - 1] + [LF]] + lines[i + 2..]
  {
  }

  lemma JoinFusedBefore(front: seq<seq<Byte>>, between: seq<seq<Byte>>, cr: seq<Byte>, back: seq<seq<Byte>>)
    ensures Join((front + between) + [cr + [LF]] + back)
         == Join(front) + Join(between + [cr]) + Join([[LF]] + back)
  {
    JoinFused(front + between, cr, back);
    JoinAppend(front, between + [cr]);
    hide Join;
    Associative(front, between, [cr]);
  }

  lemma WithoutBothParts(lines: seq<seq<Byte>>, lo: nat, hi: nat)
    requires lo < hi < |lines|
    ensures WithoutBoth(lines, lo, hi, false) == Join(lines[..lo]) + Join(lines[lo + 1..hi]) + Join(lines[hi + 1..])
  {
  }

  lemma GoneFusedBefore(lines: seq<seq<Byte>>, i: nat, j: nat)
    requires WellSplit(lines) && i < |lines| && Fuses(lines, i) && j + 1 < i
    ensures Join(Without(Resplit(lines, i), j)) == WithoutBoth(lines, j, i, false)
  {
    LfLine(lines[i + 1]);
    BeforeFused(lines, i, j);
    WithoutBothParts(lines, j, i);
    hide *;
    JoinedSlices(lines, i, j);
    JoinFusedBefore(lines[..j], lines[j + 1..i - 1], lines[i - 1], lines[i + 2..]);
  }

  lemma JoinedSlices(lines: seq<seq<Byte>>, i: nat, j: nat)
    requires j + 1 < i && i + 1 < |lines|
    ensures Join(lines[j + 1..i - 1] + [lines[i - 1]]) == Join(lines[j + 1..i])
    ensures Join([lines[i + 1]] + lines[i + 2..]) == Join(lines[i + 1..])
  {
    hide Join;
    LastOfSlice(lines, j + 1, i);
    FirstOfRest(lines, i + 1);
  }

  lemma AfterFused(lines: seq<seq<Byte>>, i: nat, j: nat)
    requires i + 1 < j < |lines| && Fuses(lines, i)
    ensures Without(Resplit(lines, i), j - 2)
         == lines[..i - 1] + [lines[i - 1] + [LF]] + (lines[i + 2..j] + lines[j + 1..])
  {
  }

  lemma JoinFusedAfter(front: seq<seq<Byte>>, cr: seq<Byte>, between: seq<seq<Byte>>, back: seq<seq<Byte>>)
    ensures Join(front + [cr + [LF]] + (between + back))
         == Join(front + [cr]) + Join([[LF]] + between) + Join(back)
  {
    JoinFused(front, cr, between + back);
    JoinAppend([[LF]] + between, back);
    hide Join;
    Associative([[LF]], between, back);
    Associative(Join(front + [cr]), Join([[LF]] + between), Join(back));
  }

  lemma GoneFusedAfter(lines: seq<seq<Byte>>, i: nat, j: nat)
    requires WellSplit(lines) && i + 1 < j < |lines| && Fuses(lines, i)
    ensures Join(Without(Resplit(lines, i), j - 2)) == WithoutBoth(lines, i, j, false)
  {
    LfLine(lines[i + 1]);
    AfterFused(lines, i, j);
    WithoutBothParts(lines, i, j);
    LastOfStart(lines, i);
    FirstOfSlice(lines, i + 1, j);
    hide *;
    JoinFusedAfter(lines[..i - 1], lines[i - 1], lines[i + 2..j], lines[j + 1..]);
  }
}
