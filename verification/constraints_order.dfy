/** Does it matter in which order two pins are taken out? */
module ConstraintsOrder {
  import opened Bytes
  import opened Ordering
  import opened Text
  import opened ConstraintLines
  import opened ConstraintPins
  import opened ConstraintsOverride

  /** Somewhere one of the two distributions' pins ends in a bare CR, the other's pin is on the
      next line, and an empty line ended by LF follows. */
  predicate Entangled(source: seq<Byte>, a: string, b: string) {
    var lines := SplitLines(source);
    exists k | 0 <= k < |lines| - 2 ::
      && EndsInBareCr(lines[k]) && StartsWithLf(lines[k + 2])
      && ((Classify(lines[k], a).TargetPin? && Classify(lines[k + 1], b).TargetPin?)
          || (Classify(lines[k], b).TargetPin? && Classify(lines[k + 1], a).TargetPin?))
  }

  /** No CR without an LF behind it. */
  ghost predicate NoBareCr(source: seq<Byte>) {
    forall k | 0 <= k < |SplitLines(source)| :: !EndsInBareCr(SplitLines(source)[k])
  }

  lemma PinNames(line: seq<Byte>, a: string, b: string)
    requires Classify(line, a).TargetPin? && Classify(line, b).TargetPin?
    ensures a == b
  {
  }

  /** One order: the second derivation succeeds as well, and this is what it leaves. */
  lemma SecondDerivation(source: seq<Byte>, a: string, ra: string, b: string, rb: string, i: nat, j: nat)
    requires Derive(source, a, ra).Ok? && Derive(source, b, rb).Ok?
    requires var lines := SplitLines(source);
             OnlyPin(lines, i, NormalizedDistribution(a).value) && OnlyPin(lines, j, NormalizedDistribution(b).value)
    requires i != j
    ensures var lines, first := SplitLines(source), Derive(source, a, ra).value.derived;
            && Derive(first, b, rb).Ok?
            && Derive(first, b, rb).value.derived
                 == WithoutBoth(lines, if i < j then i else j, if i < j then j else i, EntangledAt(lines, i, j))
  {
    EmptyLineKept(NormalizedDistribution(b).value);
    hide Classify, Collect, SplitLines, Join, NormalizedDistribution, ValidatedVersion, WithoutBoth, Resplit, Shifted;
    var lines := SplitLines(source);
    SplitIsWellSplit(source);
    if Fuses(lines, i) {
      LfLine(lines[i + 1]);
    }
    DeriveSucceeds(source, a, ra, i);
    SplitWithout(source, i);
    PinSurvives(lines, i, j, NormalizedDistribution(b).value);
    DeriveSucceeds(Derive(source, a, ra).value.derived, b, rb, Shifted(lines, i, j));
    BothGone(lines, i, j);
  }

  lemma EntangledPins(source: seq<Byte>, a: string, b: string, i: nat, j: nat)
    requires OnlyPin(SplitLines(source), i, a) && OnlyPin(SplitLines(source), j, b)
    ensures Entangled(source, a, b) <==> EntangledAt(SplitLines(source), i, j) || EntangledAt(SplitLines(source), j, i)
  {
    hide Classify, SplitLines, EndsInBareCr, StartsWithLf;
    var lines := SplitLines(source);
    if EntangledAt(lines, i, j) {
      assert EndsInBareCr(lines[j]) && StartsWithLf(lines[j + 2]);
    }
    if EntangledAt(lines, j, i) {
      assert EndsInBareCr(lines[i]) && StartsWithLf(lines[i + 2]);
    }
  }

  lemma WithoutBothDiffers(lines: seq<seq<Byte>>, lo: nat, hi: nat)
    requires lo < hi && hi + 1 < |lines| && StartsWithLf(lines[hi + 1])
    ensures |WithoutBoth(lines, lo, hi, true)| < |WithoutBoth(lines, lo, hi, false)|
  {
    assert lines[hi + 1..][1..] == lines[hi + 2..];
  }

  /** If each derivation alone succeeds, so do both in either order; and the two orders give the
      same bytes exactly when the pins are not entangled. */
  lemma OrderIrrelevantExactly(source: seq<Byte>, a: string, ra: string, b: string, rb: string)
    requires Derive(source, a, ra).Ok? && Derive(source, b, rb).Ok?
    requires NormalizedDistribution(a) != NormalizedDistribution(b)
    ensures var x, y := Derive(source, a, ra).value, Derive(source, b, rb).value;
            && Derive(x.derived, b, rb).Ok? && Derive(y.derived, a, ra).Ok?
            && (Derive(x.derived, b, rb).value.derived == Derive(y.derived, a, ra).value.derived
                <==> !Entangled(source, x.distribution, y.distribution))
  {
    hide Classify, Collect, SplitLines, Join, NormalizedDistribution, ValidatedVersion, WithoutBoth, Entangled, OnlyPin;
    hide StartsWithLf, EndsInBareCr;
    var i := DeriveRemovesOneLine(source, a, ra);
    var j := DeriveRemovesOneLine(source, b, rb);
    var lines := SplitLines(source);
    var ta, tb := NormalizedDistribution(a).value, NormalizedDistribution(b).value;
    PinsDiffer(lines, i, j, ta, tb);
    SecondDerivation(source, a, ra, b, rb, i, j);
    SecondDerivation(source, b, rb, a, ra, j, i);
    EntangledPins(source, ta, tb, i, j);
    var lo, hi := if i < j then i else j, if i < j then j else i;
    if EntangledAt(lines, i, j) || EntangledAt(lines, j, i) {
      WithoutBothDiffers(lines, lo, hi);
    }
  }

  lemma PinsDiffer(lines: seq<seq<Byte>>, i: nat, j: nat, a: string, b: string)
    requires OnlyPin(lines, i, a) && OnlyPin(lines, j, b) && a != b
    ensures i != j
  {
    if i == j {
      PinNames(lines[i], a, b);
    }
  }

  /** In particular the order does not matter for a file without bare CRs. */
  lemma OrderIrrelevantWithoutBareCr(source: seq<Byte>, a: string, ra: string, b: string, rb: string)
    requires Derive(source, a, ra).Ok? && Derive(source, b, rb).Ok?
    requires NormalizedDistribution(a) != NormalizedDistribution(b)
    requires NoBareCr(source)
    ensures var x, y := Derive(source, a, ra).value, Derive(source, b, rb).value;
            Derive(x.derived, b, rb).Ok? && Derive(y.derived, a, ra).Ok?
            && Derive(x.derived, b, rb).value.derived == Derive(y.derived, a, ra).value.derived
  {
    hide Derive, Classify, SplitLines;
    OrderIrrelevantExactly(source, a, ra, b, rb);
  }

  // A file for which the order does matter.

  /** One pin ended by CR, another ended by LF, and an empty line. */
  function ThreeLines(p: seq<Byte>, q: seq<Byte>): seq<seq<Byte>> {
    [p + [CR], q + [LF], [LF]]
  }

  lemma SmallPinMatched(pin: seq<Byte>)
    requires |pin| == 4 && 97 <= pin[0] <= 122 && pin[1] == EQUALS && pin[2] == EQUALS && 48 <= pin[3] <= 57
    ensures MatchPin(pin) == Some(Pin([pin[0]], [pin[3]]))
  {
    assert CutsPin(pin, 0, 1, 1, 3, 4, 4);
    CutIsMatched(pin, 0, 1, 1, 3, 4, 4);
    assert pin[0..1] == [pin[0]] && pin[3..4] == [pin[3]];
  }

  lemma SmallPinNames(pin: seq<Byte>)
    requires |pin| == 4 && 97 <= pin[0] <= 122 && 48 <= pin[3] <= 57
    ensures NormalizedDistribution(Ascii([pin[0]])) == Ok([pin[0] as char])
    ensures IsAscii([pin[3]]) && ValidatedVersion(Ascii([pin[3]])).Ok?
  {
    var name, version := Ascii([pin[0]]), Ascii([pin[3]]);
    assert name == [pin[0] as char] && version == [pin[3] as char];
    NormalNameFixed(name);
    hide NormalizedDistribution, Ascii;
    StripTrims(version);
    hide Strip;
  }

  lemma SmallPin(pin: seq<Byte>, target: string)
    requires |pin| == 4 && 97 <= pin[0] <= 122 && pin[1] == EQUALS && pin[2] == EQUALS && 48 <= pin[3] <= 57
    requires |target| == 1 && 'a' <= target[0] <= 'z'
    ensures if target[0] == pin[0] as char then ClassifyText(pin, target).TargetPin?
            else ClassifyText(pin, target) == Keep
  {
    FourAsciiBytes(pin);
    hide MatchPin, NormalizedDistribution, ValidatedVersion, IsUtf8, Ascii, IsAscii, ClassifyText;
    SmallPinMatched(pin);
    SmallPinNames(pin);
    ClassifyMatched(pin, target, Pin([pin[0]], [pin[3]]), [pin[0] as char], ValidatedVersion(Ascii([pin[3]])).value);
  }

  lemma FourAsciiBytes(s: seq<Byte>)
    requires |s| == 4 && IsAscii(s)
    ensures IsUtf8(s)
  {
    assert IsUtf8(s[1..][1..][1..][1..]) && IsUtf8(s[1..][1..][1..]) && IsUtf8(s[1..][1..]) && IsUtf8(s[1..]);
  }

  lemma ThreeLinesShape(p: seq<Byte>, q: seq<Byte>)
    requires q != [] && (forall i | 0 <= i < |p| :: !IsBreak(p[i])) && (forall i | 0 <= i < |q| :: !IsBreak(q[i]))
    ensures var lines := ThreeLines(p, q);
            && WellSplit(lines) && EndsInBareCr(lines[0]) && StartsWithLf(lines[2])
            && RstripBreaks(lines[0]) == p && RstripBreaks(lines[1]) == q
  {
    BodyIs(p, [CR]);
    BodyIs(q, [LF]);
    BodyIs([], [LF]);
    assert [] + [LF] == [LF];
    RstripIsBody(p + [CR]);
    RstripIsBody(q + [LF]);
    hide RstripBreaks, BodyLength, Body, Terminator;
    var lines := ThreeLines(p, q);
    assert Terminator(lines[0]) == [CR] && Terminator(lines[1]) == [LF] && Terminator(lines[2]) == [LF];
    forall i | 0 <= i < 2
      ensures Terminator(lines[i]) != [] && !(EndsInBareCr(lines[i]) && StartsWithLf(lines[i + 1]))
    {
      if i == 0 {
        assert lines[1][0] == q[0];
      }
    }
  }

  lemma ThreeLinesPins(p: seq<Byte>, q: seq<Byte>, a: string, b: string)
    requires RstripBreaks(p + [CR]) == p && RstripBreaks(q + [LF]) == q
    requires ClassifyText(p, a).TargetPin? && ClassifyText(q, a) == Keep
    requires ClassifyText(q, b).TargetPin? && ClassifyText(p, b) == Keep
    ensures OnlyPin(ThreeLines(p, q), 0, a) && OnlyPin(ThreeLines(p, q), 1, b)
  {
    EmptyLineKept(a);
    EmptyLineKept(b);
    hide ClassifyText, RstripBreaks;
  }

  lemma ThreeLinesEntangled(p: seq<Byte>, q: seq<Byte>, a: string, b: string)
    requires OnlyPin(ThreeLines(p, q), 0, a) && OnlyPin(ThreeLines(p, q), 1, b)
    requires var lines := ThreeLines(p, q); WellSplit(lines) && EndsInBareCr(lines[0]) && StartsWithLf(lines[2])
    ensures SplitLines(Join(ThreeLines(p, q))) == ThreeLines(p, q)
    ensures Entangled(Join(ThreeLines(p, q)), a, b)
  {
    hide Classify, SplitLines, Join, WellSplit, EndsInBareCr, StartsWithLf;
    var lines := ThreeLines(p, q);
    SplitJoin(lines);
    assert EndsInBareCr(lines[0]) && StartsWithLf(lines[0 + 2]);
    assert Classify(lines[0], a).TargetPin? && Classify(lines[0 + 1], b).TargetPin?;
  }

  lemma ExampleArguments()
    ensures NormalizedDistribution("a") == Ok("a") && NormalizedDistribution("b") == Ok("b")
    ensures ValidatedVersion("3") == Ok("3")
    ensures "a" != "b"
  {
    NormalNameFixed("a");
    NormalNameFixed("b");
    StripTrims("3");
    assert "a"[0] == 'a' && "b"[0] == 'b';
  }

  /** Entangled pins come out differently in the two orders. */
  lemma ThreeLinesDiffer(p: seq<Byte>, q: seq<Byte>, a: string, b: string, requested: string)
    requires OnlyPin(ThreeLines(p, q), 0, a) && OnlyPin(ThreeLines(p, q), 1, b)
    requires SplitLines(Join(ThreeLines(p, q))) == ThreeLines(p, q) && Entangled(Join(ThreeLines(p, q)), a, b)
    requires NormalizedDistribution(a) == Ok(a) && NormalizedDistribution(b) == Ok(b) && a != b
    requires ValidatedVersion(requested).Ok?
    ensures OrdersDiffer(Join(ThreeLines(p, q)), a, b, requested)
  {
    hide SplitLines, Join, ThreeLines, Entangled, NormalizedDistribution, ValidatedVersion, OnlyPin, Collect, Without;
    var source := Join(ThreeLines(p, q));
    DeriveSucceeds(source, a, requested, 0);
    DeriveSucceeds(source, b, requested, 1);
    OrderIrrelevantExactly(source, a, requested, b, requested);
  }

  ghost predicate OrdersDiffer(source: seq<Byte>, a: string, b: string, requested: string) {
    && Derive(source, a, requested).Ok? && Derive(source, b, requested).Ok?
    && var x, y := Derive(source, a, requested).value, Derive(source, b, requested).value;
       && Derive(x.derived, b, requested).Ok? && Derive(y.derived, a, requested).Ok?
       && Derive(x.derived, b, requested).value.derived != Derive(y.derived, a, requested).value.derived
  }

  /** "a==1 CR b==2 LF LF": taking out b first fuses the CR with the last LF, and a then takes the
      empty line with it. */
  lemma OrderMattersExample()
    ensures OrdersDiffer([97, 61, 61, 49, 13, 98, 61, 61, 50, 10, 10], "a", "b", "3")
  {
    var p, q: seq<Byte> := [97, 61, 61, 49], [98, 61, 61, 50];
    hide OrdersDiffer;
    JoinedExample(p, q);
    assert Join(ThreeLines(p, q)) == [97, 61, 61, 49, 13, 98, 61, 61, 50, 10, 10];
    ExamplePins(p, q);
    ExampleArguments();
    hide *;
    ThreeLinesDiffer(p, q, "a", "b", "3");
  }

  lemma ExamplePins(p: seq<Byte>, q: seq<Byte>)
    requires p == [97, 61, 61, 49] && q == [98, 61, 61, 50]
    ensures OnlyPin(ThreeLines(p, q), 0, "a") && OnlyPin(ThreeLines(p, q), 1, "b")
    ensures SplitLines(Join(ThreeLines(p, q))) == ThreeLines(p, q) && Entangled(Join(ThreeLines(p, q)), "a", "b")
  {
    ThreeLinesShape(p, q);
    SmallPin(p, "a");
    SmallPin(p, "b");
    SmallPin(q, "a");
    SmallPin(q, "b");
    hide ClassifyText, RstripBreaks, SplitLines, Join, Entangled, OnlyPin, WellSplit, EndsInBareCr, StartsWithLf;
    ThreeLinesPins(p, q, "a", "b");
    ThreeLinesEntangled(p, q, "a", "b");
  }

  lemma JoinedExample(p: seq<Byte>, q: seq<Byte>)
    ensures Join(ThreeLines(p, q)) == p + [CR] + q + [LF] + [LF]
  {
    JoinThree([p + [CR]], [q + [LF]], [[LF]]);
    assert ThreeLines(p, q) == [p + [CR]] + [q + [LF]] + [[LF]];
    JoinOne(p + [CR]);
    JoinOne(q + [LF]);
    JoinOne([LF]);
  }

  lemma JoinOne(line: seq<Byte>)
    ensures Join([line]) == line
  {
    assert [line][1..] == [];
  }
}
