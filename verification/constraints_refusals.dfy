/** Lines that look like a pin but are refused, and what the pattern takes for a version. */
module ConstraintsRefusals {
  import opened Bytes
  import opened Ordering
  import opened Text
  import opened ConstraintLines
  import opened ConstraintPins
  import opened ConstraintsOverride

  // The names that the pattern lets through.

  predicate IsPatternLetter(c: char) {
    'a' <= c <= 'z' || 'A' <= c <= 'Z' || '0' <= c <= '9'
  }

  /** [A-Za-z0-9_.-]* */
  ghost predicate PatternChars(s: string) {
    forall i | 0 <= i < |s| :: IsPatternLetter(s[i]) || IsSeparator(s[i])
  }

  lemma PinNameBytes(s: seq<Byte>)
    requires MatchPin(s).Some?
    ensures var name := MatchPin(s).value.name;
            name != [] && IsAlnum(name[0]) && forall k | 0 <= k < |name| :: IsNameByte(name[k])
  {
    hide IsBlank, IsVersionByte, IsTail;
    var a := RunEnd(s, 0, IsBlank);
    var b := RunEnd(s, a, IsNameByte);
    assert IsNameByte(s[a]);
    assert MatchPin(s).value.name == s[a..b];
  }

  lemma PinNameChars(s: seq<Byte>)
    requires MatchPin(s).Some?
    ensures var name := Ascii(MatchPin(s).value.name);
            name != "" && PatternChars(name) && IsPatternLetter(name[0])
  {
    PinNameBytes(s);
    hide MatchPin;
    var bytes := MatchPin(s).value.name;
    forall k | 0 <= k < |bytes| ensures IsPatternLetter(Ascii(bytes)[k]) || IsSeparator(Ascii(bytes)[k]) {
      assert IsNameByte(bytes[k]);
    }
  }

  /** Letters and single hyphens, a hyphen at either end exactly where s has a separator. */
  ghost predicate Collapsed(c: string, s: string)
    requires s != ""
  {
    && c != ""
    && (forall i | 0 <= i < |c| :: IsPatternLetter(c[i]) || c[i] == '-')
    && (forall i | 0 <= i < |c| - 1 :: !(c[i] == '-' && c[i + 1] == '-'))
    && (c[0] == '-' <==> IsSeparator(s[0]))
    && (c[|c| - 1] == '-' <==> IsSeparator(s[|s| - 1]))
  }

  /** What collapsing leaves. */
  lemma {:induction false} CollapseShape(s: string)
    requires s != "" && PatternChars(s)
    ensures Collapsed(CollapseSeparators(s), s)
  {
    if |s| > 1 {
      assert PatternChars(s[1..]);
      CollapseShape(s[1..]);
      CollapseFirst(s);
      var c := CollapseSeparators(s[1..]);
      hide CollapseSeparators, PatternChars;
      if IsSeparator(s[0]) && IsSeparator(s[1]) {
        assert "" + c == c;
      } else {
        Prepended(if IsSeparator(s[0]) then '-' else s[0], c, s);
      }
    }
  }

  lemma Prepended(x: char, c: string, s: string)
    requires |s| > 1 && Collapsed(c, s[1..]) && (IsPatternLetter(x) || x == '-')
    requires x == '-' <==> IsSeparator(s[0])
    requires !(IsSeparator(s[0]) && IsSeparator(s[1]))
    ensures Collapsed([x] + c, s)
  {
    var after := [x] + c;
    assert after[1..] == c && after[|after| - 1] == c[|c| - 1];
    assert s[1..][0] == s[1] && s[1..][|s| - 2] == s[|s| - 1];
    hide IsPatternLetter, IsSeparator;
    forall i | 0 <= i < |after| - 1 ensures !(after[i] == '-' && after[i + 1] == '-') {
      if i > 0 {
        assert after[i] == c[i - 1] && after[i + 1] == c[i];
      }
    }
  }

  lemma CollapseFirst(s: string)
    requires |s| > 1 && PatternChars(s)
    ensures var first := if IsSeparator(s[0]) then (if IsSeparator(s[1]) then "" else "-") else [s[0]];
            CollapseSeparators(s) == first + CollapseSeparators(s[1..])
    ensures IsPatternLetter(s[0]) || IsSeparator(s[0])
    ensures IsPatternLetter(s[0]) ==> s[0] != '-'
  {
  }

  lemma {:induction false} LowerEach(s: string)
    ensures |Lower(s)| == |s| && forall i | 0 <= i < |s| :: Lower(s)[i] == LowerChar(s[i])
  {
    if s != "" {
      LowerEach(s[1..]);
    }
  }

  lemma LowerLetters(c: char)
    ensures IsPatternLetter(c) ==> IsNameLetter(LowerChar(c)) && LowerChar(c) != '-'
    ensures LowerChar('-') == '-'
  {
  }

  lemma NothingToStrip(s: string)
    requires s != "" && PatternChars(s)
    ensures Strip(s) == s
  {
    StripTrims(s);
    assert IsPatternLetter(s[0]) || IsSeparator(s[0]);
    assert IsPatternLetter(s[|s| - 1]) || IsSeparator(s[|s| - 1]);
  }

  lemma NormalizedPatternName(name: string)
    requires name != "" && PatternChars(name) && IsPatternLetter(name[0])
    ensures NormalizedDistribution(name).Err? <==> IsSeparator(name[|name| - 1])
  {
    NothingToStrip(name);
    CollapseShape(name);
    var c := CollapseSeparators(name);
    LowerEach(c);
    forall i | 0 <= i < |c| ensures Lower(c)[i] == '-' <==> c[i] == '-' {
      LowerLetters(c[i]);
    }
    forall i | 0 <= i < |c| ensures IsNameLetter(Lower(c)[i]) || Lower(c)[i] == '-' {
      LowerLetters(c[i]);
    }
  }

  /** A matched pin's name is no distribution name exactly when it ends in a separator. */
  lemma PinNameRefusedExactly(s: seq<Byte>)
    requires MatchPin(s).Some?
    ensures var name := Ascii(MatchPin(s).value.name);
            name != "" && (NormalizedDistribution(name).Err? <==> IsSeparator(name[|name| - 1]))
  {
    PinNameChars(s);
    NormalizedPatternName(Ascii(MatchPin(s).value.name));
  }

  predicate EndsInSeparator(s: seq<Byte>) {
    MatchPin(s).Some? && var name := Ascii(MatchPin(s).value.name); name != "" && IsSeparator(name[|name| - 1])
  }

  /** A line is refused exactly when it matches the pattern and its name ends in a separator, or it
      names the distribution and its version is not ASCII or has white space inside or is nothing
      but white space, or the line is not UTF-8. */
  lemma RefusedExactly(s: seq<Byte>, target: string)
    ensures ClassifyText(s, target).Refuse?
            <==> MatchPin(s).Some?
                 && var pin := MatchPin(s).value;
                    || EndsInSeparator(s)
                    || (NormalizedDistribution(Ascii(pin.name)) == Ok(target)
                        && !(IsAscii(pin.version) && ValidatedVersion(Ascii(pin.version)).Ok? && IsUtf8(s)))
  {
    if MatchPin(s).Some? {
      PinNameRefusedExactly(s);
    }
    hide MatchPin, NormalizedDistribution, ValidatedVersion, IsUtf8;
  }

  /** One line whose name ends in a separator makes every derivation from the file fail, whatever
      the distribution. */
  lemma SeparatorFailsAll(source: seq<Byte>, k: nat, distribution: string, requestedVersion: string)
    requires k < |SplitLines(source)| && EndsInSeparator(RstripBreaks(SplitLines(source)[k]))
    ensures Derive(source, distribution, requestedVersion).Err?
  {
    if NormalizedDistribution(distribution).Ok? {
      var target := NormalizedDistribution(distribution).value;
      RefusedExactly(RstripBreaks(SplitLines(source)[k]), target);
      hide ClassifyText, SplitLines, RstripBreaks, Collect, EndsInSeparator, MatchPin, NormalizedDistribution;
      if Collect(SplitLines(source), target).Ok? {
        CollectIsClean(SplitLines(source), target);
      }
    }
  }

  /** A version begins with an equals sign exactly when another one follows `==` and the blanks
      behind it. */
  lemma VersionAfterThirdEquals(s: seq<Byte>, a: nat, b: nat, c: nat, d: nat, e: nat, f: nat)
    requires CutsPin(s, a, b, c, d, e, f)
    ensures MatchPin(s).Some? && MatchPin(s).value.version != []
    ensures MatchPin(s).value.version[0] == 61 <==> s[d] == 61
  {
    CutIsMatched(s, a, b, c, d, e, f);
    hide MatchPin;
  }

  // Two files of one line.

  lemma {:induction false} OneLine(s: seq<Byte>)
    requires s != [] && forall i | 0 <= i < |s| :: !IsBreak(s[i])
    ensures SplitLines(s) == [s] && RstripBreaks(s) == s
  {
    if |s| > 1 {
      OneLine(s[1..]);
      assert LineLength(s[1..]) == |s| - 1 by { OneLineLength(s[1..]); }
    }
    assert s[..|s|] == s && s[|s|..] == [];
  }

  lemma {:induction false} OneLineLength(s: seq<Byte>)
    requires s != [] && forall i | 0 <= i < |s| :: !IsBreak(s[i])
    ensures LineLength(s) == |s|
  {
    if |s| > 1 {
      OneLineLength(s[1..]);
    }
  }

  lemma {:induction false} AsciiIsUtf8(s: seq<Byte>)
    requires IsAscii(s)
    ensures IsUtf8(s)
  {
    if s != [] {
      AsciiIsUtf8(s[1..]);
    }
  }

  /** "a===1" */
  function TripleEquals(): seq<Byte> { [97, 61, 61, 61, 49] }

  lemma TripleEqualsMatched()
    ensures MatchPin(TripleEquals()) == Some(Pin([97], [61, 49]))
  {
    var s := TripleEquals();
    assert CutsPin(s, 0, 1, 1, 3, 5, 5);
    CutIsMatched(s, 0, 1, 1, 3, 5, 5);
    assert s[0..1] == [97] && s[3..5] == [61, 49];
  }

  lemma TripleEqualsNames()
    ensures Ascii([97]) == "a" && Ascii([61, 49]) == "=1" && NormalizedDistribution("a") == Ok("a")
    ensures ValidatedVersion("=1") == Ok("=1") && ValidatedVersion("3") == Ok("3")
  {
    NormalNameFixed("a");
    hide NormalizedDistribution;
    assert Ascii([97])[0] == 'a' && Ascii([61, 49])[0] == '=' && Ascii([61, 49])[1] == '1';
    hide Ascii;
    StripTrims("=1");
    StripTrims("3");
    hide Strip;
  }

  lemma TripleEqualsClass()
    ensures ClassifyText(TripleEquals(), "a") == TargetPin(TripleEquals(), "=1")
  {
    var s, version: seq<Byte> := TripleEquals(), [61, 49];
    AsciiIsUtf8(s);
    assert IsAscii(version);
    hide MatchPin, NormalizedDistribution, ValidatedVersion, IsUtf8, Ascii, IsAscii, TripleEquals, ClassifyText;
    TripleEqualsMatched();
    TripleEqualsNames();
    ClassifyMatched(s, "a", Pin([97], version), "a", "=1");
  }

  /** Removing the only line of a file. */
  lemma OnlyLineRemoved(s: seq<Byte>, target: string, requested: string, version: string)
    requires SplitLines(s) == [s] && Classify(s, target) == TargetPin(s, version)
    requires NormalizedDistribution(target) == Ok(target) && ValidatedVersion(requested) == Ok(requested)
    ensures Derive(s, target, requested) == Ok(Derivation([], target, version, requested, s, 0))
  {
    hide Classify, SplitLines, NormalizedDistribution, ValidatedVersion, Collect;
    assert OnlyPin([s], 0, target);
    CollectOnly([s], 0, target);
    assert Without([s], 0) == [];
    EmptyJoin();
  }

  /** The pattern takes "a===1" for version "=1" of a, and the line is removed as such. */
  lemma TripleEqualsAccepted()
    ensures Derive(TripleEquals(), "a", "3") == Ok(Derivation([], "a", "=1", "3", TripleEquals(), 0))
  {
    var s := TripleEquals();
    OneLine(s);
    TripleEqualsClass();
    TripleEqualsNames();
    hide ClassifyText, NormalizedDistribution, ValidatedVersion, SplitLines, RstripBreaks, TripleEquals, Ascii, Derive;
    OnlyLineRemoved(s, "a", "3", "=1");
  }

  /** "a-==1" */
  function NameWithSeparator(): seq<Byte> { [97, 45, 61, 61, 49] }

  lemma SeparatorExample()
    ensures EndsInSeparator(NameWithSeparator())
  {
    var s := NameWithSeparator();
    assert CutsPin(s, 0, 2, 2, 4, 5, 5);
    CutIsMatched(s, 0, 2, 2, 4, 5, 5);
    assert s[0..2] == [97, 45];
    hide MatchPin;
    assert Ascii([97, 45])[1] == '-';
  }

  /** The file "a-==1" fails for every distribution, b included, which it does not mention. */
  lemma SeparatorRefused(distribution: string, requestedVersion: string)
    ensures Derive(NameWithSeparator(), distribution, requestedVersion).Err?
    ensures Derive(NameWithSeparator(), "b", "3") == Err(DistributionInvalid)
  {
    var s := NameWithSeparator();
    OneLine(s);
    SeparatorExample();
    hide EndsInSeparator, SplitLines, RstripBreaks, Derive;
    assert SplitLines(s)[0] == s;
    SeparatorFailsAll(s, 0, distribution, requestedVersion);
    SeparatorError(s);
  }

  lemma SeparatorClass(s: seq<Byte>, target: string)
    requires EndsInSeparator(s)
    ensures ClassifyText(s, target) == Refuse(DistributionInvalid)
  {
    PinNameRefusedExactly(s);
    OnlyNameError(Ascii(MatchPin(s).value.name));
    hide MatchPin, NormalizedDistribution, ValidatedVersion, IsUtf8, IsAscii, Ascii;
  }

  lemma SeparatorError(s: seq<Byte>)
    requires SplitLines(s) == [s] && RstripBreaks(s) == s && EndsInSeparator(s)
    ensures Derive(s, "b", "3") == Err(DistributionInvalid)
  {
    SeparatorClass(s, "b");
    ValidArguments();
    FirstRefused(s, "b", DistributionInvalid);
    hide Collect, SplitLines, NormalizedDistribution, ValidatedVersion, EndsInSeparator;
  }

  lemma FirstRefused(s: seq<Byte>, target: string, error: PinError)
    requires RstripBreaks(s) == s && ClassifyText(s, target) == Refuse(error)
    ensures Collect([s], target) == Err(error)
  {
    assert Classify(s, target) == Refuse(error);
    hide Classify;
    assert [s][..0] == [];
    RefusedLine([s], 0, target);
  }

  lemma ValidArguments()
    ensures NormalizedDistribution("b") == Ok("b") && ValidatedVersion("3") == Ok("3")
  {
    NormalNameFixed("b");
    StripTrims("3");
  }

  lemma OnlyNameError(name: string)
    ensures NormalizedDistribution(name).Err? ==> NormalizedDistribution(name) == Err(DistributionInvalid)
  {
  }
}
