/** Which spellings of a distribution's name mean the same, and what that makes of a derivation:
    everything in character codes. */
module ConstraintsSpelling {
  import opened Bytes
  import opened Ordering
  import opened Text
  import opened ConstraintLines
  import opened ConstraintPins
  import opened ConstraintsOverride
  import opened ConstraintsRefusals

  /** Hyphen, full stop, underscore. */
  predicate Sep(c: int) {
    c == 45 || c == 46 || c == 95
  }

  /** ASCII letters and digits, and the Kelvin sign, whose lower case is k. */
  predicate NameCode(c: int) {
    IsLetterCode(c) || c == 0x212A
  }

  function AfterRun(s: seq<int>): (r: seq<int>)
    ensures |r| <= |s| && (s != [] && Sep(s[0]) ==> |r| < |s|)
    ensures r != [] ==> !Sep(r[0])
  {
    if s != [] && Sep(s[0]) then AfterRun(s[1..]) else s
  }

  /** The name with each run of separators read as one hyphen. */
  function ReadRuns(s: seq<int>): seq<int>
    decreases |s|
  {
    if s == [] then []
    else if Sep(s[0]) then [45] + ReadRuns(AfterRun(s))
    else [s[0]] + ReadRuns(s[1..])
  }

  /** The same character, or a capital and its small letter, 32 apart, or two of K, k and the
      Kelvin sign. */
  predicate SameLetter(x: int, y: int) {
    || x == y
    || (65 <= x <= 90 && y == x + 32)
    || (65 <= y <= 90 && x == y + 32)
    || (x in {75, 107, 0x212A} && y in {75, 107, 0x212A})
  }

  /** The names agree, place by place, with runs of separators read as one. */
  predicate Alike(a: seq<int>, b: seq<int>) {
    var x, y := ReadRuns(a), ReadRuns(b);
    |x| == |y| && forall i | 0 <= i < |x| :: SameLetter(x[i], y[i])
  }

  function Codes(s: string): (r: seq<int>)
    ensures |r| == |s| && forall i | 0 <= i < |s| :: r[i] == s[i] as int
  {
    if s == "" then [] else [s[0] as int] + Codes(s[1..])
  }

  lemma TailCodes(s: string)
    requires s != ""
    ensures Codes(s) == [s[0] as int] + Codes(s[1..])
  {
  }

  lemma {:induction false} CollapseRun(s: string)
    requires s != "" && IsSeparator(s[0])
    ensures exists rest: string ::
              && |rest| < |s| && Codes(rest) == AfterRun(Codes(s))
              && CollapseSeparators(s) == "-" + CollapseSeparators(rest)
  {
    TailCodes(s);
    if |s| > 1 && IsSeparator(s[1]) {
      CollapseRun(s[1..]);
      var rest :| |rest| < |s[1..]| && Codes(rest) == AfterRun(Codes(s[1..]))
          && CollapseSeparators(s[1..]) == "-" + CollapseSeparators(rest);
      assert Codes(rest) == AfterRun(Codes(s));
    } else {
      assert Codes(s)[1..] == Codes(s[1..]);
      assert AfterRun(Codes(s)) == Codes(s[1..]);
    }
  }

  lemma {:induction false} CollapseReads(s: string)
    ensures Codes(CollapseSeparators(s)) == ReadRuns(Codes(s))
    decreases |s|
  {
    if s != "" {
      TailCodes(s);
      if IsSeparator(s[0]) {
        CollapseRun(s);
        var rest :| |rest| < |s| && Codes(rest) == AfterRun(Codes(s))
            && CollapseSeparators(s) == "-" + CollapseSeparators(rest);
        CollapseReads(rest);
        TailCodes(CollapseSeparators(s));
        assert CollapseSeparators(s)[1..] == CollapseSeparators(rest);
      } else {
        CollapseReads(s[1..]);
        TailCodes(CollapseSeparators(s));
        assert CollapseSeparators(s)[1..] == CollapseSeparators(s[1..]);
      }
    }
  }

  /** A capital becomes its own small letter. */
  function Small(c: int): int {
    if 65 <= c <= 90 then c + 32 else if c == 0x212A then 107 else c
  }

  /** What a name normalises to: its characters with runs of separators read as one, every ASCII
      capital its own small letter. */
  lemma NormalizedLetters(value: string)
    requires NormalizedDistribution(value).Ok?
    ensures var n, read := NormalizedDistribution(value).value, ReadRuns(Codes(Strip(value)));
            |n| == |read| && forall i | 0 <= i < |n| :: n[i] as int == Small(read[i])
  {
    LoweredRuns(Strip(value));
  }

  lemma LoweredRuns(s: string)
    ensures var n, read := Lower(CollapseSeparators(s)), ReadRuns(Codes(s));
            |n| == |read| && forall i | 0 <= i < |n| :: n[i] as int == Small(read[i])
  {
    CollapseReads(s);
    LowerEach(CollapseSeparators(s));
    hide ReadRuns, Lower, CollapseSeparators, Codes;
  }

  lemma SmallIsSame(x: int, y: int)
    ensures Small(x) == Small(y) <==> SameLetter(x, y)
  {
  }

  /** Two spellings normalise to the same name exactly when they are alike. */
  lemma SpellingsExactly(a: string, b: string)
    requires NormalizedDistribution(a).Ok? && NormalizedDistribution(b).Ok?
    ensures NormalizedDistribution(a) == NormalizedDistribution(b) <==> Alike(Codes(Strip(a)), Codes(Strip(b)))
  {
    NormalizedLetters(a);
    NormalizedLetters(b);
    var x, y := ReadRuns(Codes(Strip(a))), ReadRuns(Codes(Strip(b)));
    var m, n := NormalizedDistribution(a).value, NormalizedDistribution(b).value;
    hide NormalizedDistribution, Codes, ReadRuns, Small, SameLetter;
    if |x| == |y| {
      forall i | 0 <= i < |x| ensures m[i] == n[i] <==> SameLetter(x[i], y[i]) {
        SmallIsSame(x[i], y[i]);
      }
      if Alike(Codes(Strip(a)), Codes(Strip(b))) {
        assert forall i | 0 <= i < |m| :: m[i] == n[i];
        assert m == n;
      } else {
        var i :| 0 <= i < |x| && !SameLetter(x[i], y[i]);
        assert m[i] != n[i];
      }
    }
  }

  // Which names there are.

  /** Letters and separators, a letter at either end. */
  predicate ProperName(s: seq<int>) {
    && s != []
    && (forall i | 0 <= i < |s| :: NameCode(s[i]) || Sep(s[i]))
    && !Sep(s[0]) && !Sep(s[|s| - 1])
  }

  /** What reading runs keeps. */
  lemma {:induction false} ReadShape(s: seq<int>)
    requires s != []
    ensures var r := ReadRuns(s);
            && r != [] && (r[0] == 45 <==> Sep(s[0])) && (r[|r| - 1] == 45 <==> Sep(s[|s| - 1]))
            && (forall i | 0 <= i < |r| - 1 :: !(r[i] == 45 && r[i + 1] == 45))
            && ((forall c | c in r :: NameCode(c) || c == 45) <==> forall c | c in s :: NameCode(c) || Sep(c))
    decreases |s|
  {
    var rest := if Sep(s[0]) then AfterRun(s) else s[1..];
    AfterRunKeeps(s);
    var head := if Sep(s[0]) then 45 else s[0];
    assert ReadRuns(s) == [head] + ReadRuns(rest);
    assert head == 45 <==> Sep(s[0]);
    if rest != [] {
      ReadShape(rest);
      var r := ReadRuns(rest);
      hide ReadRuns, AfterRun, Sep, NameCode;
      forall i | 0 <= i < |r| ensures !(([head] + r)[i] == 45 && ([head] + r)[i + 1] == 45) {
        if i > 0 {
          assert ([head] + r)[i] == r[i - 1] && ([head] + r)[i + 1] == r[i];
        }
      }
    }
  }

  lemma {:induction false} AfterRunKeeps(s: seq<int>)
    requires s != []
    ensures var rest := if Sep(s[0]) then AfterRun(s) else s[1..];
            && (rest != [] ==> rest[|rest| - 1] == s[|s| - 1])
            && (rest == [] ==> (Sep(s[|s| - 1]) <==> Sep(s[0])))
            && (forall c :: c in s && !Sep(c) ==> c in rest || c == s[0])
            && (forall c :: c in rest ==> c in s)
  {
    assert s == [s[0]] + s[1..];
    if Sep(s[0]) && |s| > 1 {
      AfterRunKeeps(s[1..]);
    }
  }

  /** A name normalises exactly when, stripped, it consists of letters and separators and has a
      letter at either end. */
  lemma NormalizesExactly(value: string)
    ensures NormalizedDistribution(value).Ok? <==> ProperName(Codes(Strip(value)))
  {
    var s := Codes(Strip(value));
    var n := Lower(CollapseSeparators(Strip(value)));
    LoweredRuns(Strip(value));
    if s != [] {
      ReadShape(s);
      SmallLetters(n, ReadRuns(s));
    }
  }

  lemma SmallLetters(n: string, read: seq<int>)
    requires |n| == |read| && forall i | 0 <= i < |n| :: n[i] as int == Small(read[i])
    ensures (forall i | 0 <= i < |n| :: IsNameLetter(n[i]) || n[i] == '-')
            <==> forall c | c in read :: NameCode(c) || c == 45
    ensures forall i | 0 <= i < |n| :: n[i] == '-' <==> read[i] == 45
  {
    forall i | 0 <= i < |n|
      ensures IsNameLetter(n[i]) || n[i] == '-' <==> NameCode(read[i]) || read[i] == 45
      ensures n[i] == '-' <==> read[i] == 45
    {
    }
    hide NameCode, IsNameLetter, Small;
    if forall i | 0 <= i < |n| :: IsNameLetter(n[i]) || n[i] == '-' {
      forall c | c in read ensures NameCode(c) || c == 45 {
        var i :| 0 <= i < |read| && read[i] == c;
      }
    }
  }

  // What that makes of a derivation.

  predicate ProperVersion(version: string) {
    Strip(version) != "" && forall i | 0 <= i < |Strip(version)| :: !IsSpace(Strip(version)[i])
  }

  predicate EndsInSep(name: seq<int>) {
    name != [] && Sep(name[|name| - 1])
  }

  /** The line is a pin of the distribution, in some spelling, and can be recorded. */
  predicate Removable(line: seq<Byte>, distribution: string) {
    && MatchPin(Body(line)).Some?
    && var pin := MatchPin(Body(line)).value;
       && !EndsInSep(pin.name) && Alike(pin.name, Codes(Strip(distribution)))
       && IsAscii(pin.version) && ProperVersion(Ascii(pin.version)) && IsUtf8(Body(line))
  }

  /** The line is no pin, or one of another distribution. */
  predicate Untouched(line: seq<Byte>, distribution: string) {
    MatchPin(Body(line)).Some? ==>
      var name := MatchPin(Body(line)).value.name;
      !EndsInSep(name) && !Alike(name, Codes(Strip(distribution)))
  }

  lemma PinCodes(s: seq<Byte>)
    requires MatchPin(s).Some?
    ensures var name := MatchPin(s).value.name;
            && Codes(Ascii(name)) == name && Strip(Ascii(name)) == Ascii(name)
            && (NormalizedDistribution(Ascii(name)).Ok? <==> !EndsInSep(name))
  {
    PinNameChars(s);
    PinNameRefusedExactly(s);
    NothingToStrip(Ascii(MatchPin(s).value.name));
    hide MatchPin, NormalizedDistribution, Strip, PatternChars;
  }

  lemma ClassBySpelling(line: seq<Byte>, distribution: string)
    requires IsLine(line) && NormalizedDistribution(distribution).Ok?
    ensures var c := Classify(line, NormalizedDistribution(distribution).value);
            && (c == Keep <==> Untouched(line, distribution))
            && (c.TargetPin? <==> Removable(line, distribution))
            && (c.TargetPin? ==> c.requirement == Body(line)
                                 && c.version == Strip(Ascii(MatchPin(Body(line)).value.version)))
  {
    RstripIsBody(line);
    hide MatchPin, NormalizedDistribution, Body, IsUtf8, IsAscii, Alike, Strip, RstripBreaks, Codes, Ascii;
    if MatchPin(Body(line)).Some? {
      NameBySpelling(Body(line), distribution);
      VersionProper(Ascii(MatchPin(Body(line)).value.version));
    }
    hide ValidatedVersion, ProperVersion, EndsInSep;
  }

  lemma VersionProper(version: string)
    ensures ValidatedVersion(version).Ok? <==> ProperVersion(version)
    ensures ValidatedVersion(version).Ok? ==> ValidatedVersion(version).value == Strip(version)
  {
    hide Strip;
  }

  lemma NameBySpelling(s: seq<Byte>, distribution: string)
    requires MatchPin(s).Some? && NormalizedDistribution(distribution).Ok?
    ensures var name := MatchPin(s).value.name;
            && (NormalizedDistribution(Ascii(name)).Ok? <==> !EndsInSep(name))
            && (NormalizedDistribution(Ascii(name)).Ok? ==>
                  (NormalizedDistribution(Ascii(name)) == NormalizedDistribution(distribution)
                   <==> Alike(name, Codes(Strip(distribution)))))
  {
    var name := MatchPin(s).value.name;
    hide MatchPin, NormalizedDistribution, Alike, Strip, Codes, Ascii, EndsInSep;
    PinCodes(s);
    if NormalizedDistribution(Ascii(name)).Ok? {
      SpellingsExactly(Ascii(name), distribution);
    }
  }

  /** A derivation succeeds exactly when the arguments are proper and one line, in some spelling, is
      a pin of the distribution while every other line is no pin or a proper one of another. */
  lemma DerivesExactly(source: seq<Byte>, distribution: string, requestedVersion: string)
    ensures Derive(source, distribution, requestedVersion).Ok?
            <==> && ProperName(Codes(Strip(distribution))) && ProperVersion(requestedVersion)
                 && exists i | 0 <= i < |SplitLines(source)| :: OnlyRemovable(SplitLines(source), i, distribution)
  {
    NormalizesExactly(distribution);
    var lines := SplitLines(source);
    SplitIsWellSplit(source);
    assert ValidatedVersion(requestedVersion).Ok? <==> ProperVersion(requestedVersion);
    hide ValidatedVersion, NormalizedDistribution, SplitLines, ProperName, OnlyRemovable, OnlyPin, Derive;
    if NormalizedDistribution(distribution).Ok? {
      forall i | 0 <= i < |lines|
        ensures OnlyPin(lines, i, NormalizedDistribution(distribution).value) <==> OnlyRemovable(lines, i, distribution)
      {
        OnlyBySpelling(lines, i, distribution);
      }
    }
    if Derive(source, distribution, requestedVersion).Ok? {
      var i := DeriveRemovesOneLine(source, distribution, requestedVersion);
      ArgumentsValid(source, distribution, requestedVersion);
      assert i < |lines| by { PinInside(lines, i, NormalizedDistribution(distribution).value); }
    }
    if NormalizedDistribution(distribution).Ok? && ProperVersion(requestedVersion)
        && exists i | 0 <= i < |lines| :: OnlyRemovable(lines, i, distribution) {
      var i :| 0 <= i < |lines| && OnlyRemovable(lines, i, distribution);
      DeriveSucceeds(source, distribution, requestedVersion, i);
    }
  }

  predicate OnlyRemovable(lines: seq<seq<Byte>>, i: nat, distribution: string)
    requires i < |lines|
  {
    && Removable(lines[i], distribution)
    && forall k | 0 <= k < |lines| && k != i :: Untouched(lines[k], distribution)
  }

  lemma PinInside(lines: seq<seq<Byte>>, i: nat, target: string)
    requires OnlyPin(lines, i, target)
    ensures i < |lines|
  {
    hide Classify;
  }

  lemma ArgumentsValid(source: seq<Byte>, distribution: string, requestedVersion: string)
    requires Derive(source, distribution, requestedVersion).Ok?
    ensures NormalizedDistribution(distribution).Ok? && ValidatedVersion(requestedVersion).Ok?
  {
    hide Collect, NormalizedDistribution, ValidatedVersion, SplitLines;
  }

  lemma OnlyBySpelling(lines: seq<seq<Byte>>, i: nat, distribution: string)
    requires WellSplit(lines) && NormalizedDistribution(distribution).Ok? && i < |lines|
    ensures OnlyPin(lines, i, NormalizedDistribution(distribution).value) <==> OnlyRemovable(lines, i, distribution)
  {
    hide Classify, NormalizedDistribution, Removable, Untouched, IsLine;
    var target := NormalizedDistribution(distribution).value;
    forall k | 0 <= k < |lines|
      ensures Classify(lines[k], target) == Keep <==> Untouched(lines[k], distribution)
      ensures Classify(lines[k], target).TargetPin? <==> Removable(lines[k], distribution)
    {
      ClassBySpelling(lines[k], distribution);
    }
  }

  // An example.

  /** "Flask==3.0.0" */
  function FlaskPin(): seq<Byte> { [70, 108, 97, 115, 107, 61, 61, 51, 46, 48, 46, 48] }

  function FlaskName(): seq<Byte> { [70, 108, 97, 115, 107] }
  function FlaskVersion(): seq<Byte> { [51, 46, 48, 46, 48] }

  lemma FlaskCuts()
    ensures CutsPin(FlaskPin(), 0, 5, 5, 7, 12, 12)
    ensures FlaskPin()[0..5] == FlaskName() && FlaskPin()[7..12] == FlaskVersion()
  {
  }

  lemma FlaskMatched()
    ensures MatchPin(FlaskPin()) == Some(Pin(FlaskName(), FlaskVersion()))
  {
    FlaskCuts();
    hide *;
    CutIsMatched(FlaskPin(), 0, 5, 5, 7, 12, 12);
  }

  lemma FlaskText()
    ensures Ascii(FlaskName()) == "Flask" && Ascii(FlaskVersion()) == "3.0.0"
    ensures IsAscii(FlaskVersion())
  {
    hide Ascii;
    assert |Ascii(FlaskName())| == 5 && forall i | 0 <= i < 5 :: Ascii(FlaskName())[i] == "Flask"[i];
    assert |Ascii(FlaskVersion())| == 5 && forall i | 0 <= i < 5 :: Ascii(FlaskVersion())[i] == "3.0.0"[i];
  }

  lemma FlaskVersions()
    ensures ValidatedVersion("3.0.0") == Ok("3.0.0") && ValidatedVersion("3.1.0") == Ok("3.1.0")
  {
    StripTrims("3.0.0");
    StripTrims("3.1.0");
    hide Strip;
  }

  lemma FlaskNormal()
    ensures NormalizedDistribution("flask") == Ok("flask")
  {
    hide NormalizedDistribution;
    NormalNameFixed("flask");
  }

  lemma FlaskAlike()
    ensures NormalizedDistribution("Flask") == NormalizedDistribution("flask") == Ok("flask")
  {
    FlaskNormal();
    hide NormalizedDistribution, Strip, ReadRuns, Codes;
    FiveLetters("Flask");
    FiveLetters("flask");
    NormalizesExactly("Flask");
    SpellingsExactly("Flask", "flask");
  }

  lemma FiveLetters(s: string)
    requires |s| == 5 && forall i | 0 <= i < 5 :: IsLetterCode(s[i] as int)
    ensures Strip(s) == s && ReadRuns(Codes(s)) == Codes(s) && ProperName(Codes(s))
  {
    LettersTrimmed(s);
    hide Codes, ReadRuns, Strip;
    LettersRead(Codes(s));
  }

  lemma LettersTrimmed(s: string)
    requires s != "" && forall i | 0 <= i < |s| :: IsLetterCode(s[i] as int)
    ensures Strip(s) == s
  {
    StripTrims(s);
    hide Strip;
  }

  lemma {:induction false} LettersRead(s: seq<int>)
    requires forall i | 0 <= i < |s| :: IsLetterCode(s[i])
    ensures ReadRuns(s) == s
  {
    if s != [] {
      LettersRead(s[1..]);
    }
  }

  /** The pin of Flask is the pin of flask. */
  lemma FlaskIsFlask()
    ensures Derive(FlaskPin(), "flask", "3.1.0") == Ok(Derivation([], "flask", "3.0.0", "3.1.0", FlaskPin(), 0))
  {
    FlaskLine();
    hide *;
    FlaskClass();
    FlaskNormal();
    FlaskVersions();
    ClassifyBare(FlaskPin(), "flask");
    OnlyLineRemoved(FlaskPin(), "flask", "3.1.0", "3.0.0");
  }

  lemma FlaskLine()
    ensures SplitLines(FlaskPin()) == [FlaskPin()] && RstripBreaks(FlaskPin()) == FlaskPin() && IsUtf8(FlaskPin())
  {
    hide SplitLines, RstripBreaks, IsUtf8;
    OneLine(FlaskPin());
    AsciiIsUtf8(FlaskPin());
  }

  lemma FlaskClass()
    ensures ClassifyText(FlaskPin(), "flask") == TargetPin(FlaskPin(), "3.0.0")
  {
    hide *;
    FlaskMatched();
    FlaskText();
    FlaskAlike();
    FlaskVersions();
    FlaskLine();
    ClassifyMatched(FlaskPin(), "flask", Pin(FlaskName(), FlaskVersion()), "flask", "3.0.0");
  }

  lemma ClassifyBare(s: seq<Byte>, target: string)
    requires RstripBreaks(s) == s
    ensures Classify(s, target) == ClassifyText(s, target)
  {
  }

  // How many pins there are.

  function PinsOf(lines: seq<seq<Byte>>, distribution: string): nat {
    if lines == [] then 0
    else (if Removable(lines[0], distribution) then 1 else 0) + PinsOf(lines[1..], distribution)
  }

  lemma {:induction false} PinsAppend(lines: seq<seq<Byte>>, last: seq<Byte>, distribution: string)
    ensures PinsOf(lines + [last], distribution)
         == PinsOf(lines, distribution) + if Removable(last, distribution) then 1 else 0
  {
    hide Removable;
    if lines == [] {
      assert [last][1..] == [];
    } else {
      assert (lines + [last])[1..] == lines[1..] + [last];
      PinsAppend(lines[1..], last, distribution);
    }
  }

  lemma {:induction false} CollectCounts(lines: seq<seq<Byte>>, distribution: string)
    requires NormalizedDistribution(distribution).Ok? && forall k | 0 <= k < |lines| :: IsLine(lines[k])
    requires forall k | 0 <= k < |lines| :: Removable(lines[k], distribution) || Untouched(lines[k], distribution)
    ensures var collected := Collect(lines, NormalizedDistribution(distribution).value);
            collected.Ok? && |collected.value.removed| == PinsOf(lines, distribution)
  {
    hide Removable, Untouched, Classify, NormalizedDistribution, IsLine;
    if lines != [] {
      var init, last := lines[..|lines| - 1], lines[|lines| - 1];
      CollectCounts(init, distribution);
      ClassBySpelling(last, distribution);
      PinsAppend(init, last, distribution);
      FrontAndLast(lines);
    }
  }

  /** With proper arguments and no refused line the error is the number of the distribution's pins. */
  lemma PinCountExactly(source: seq<Byte>, distribution: string, requestedVersion: string)
    requires ProperName(Codes(Strip(distribution))) && ProperVersion(requestedVersion)
    requires forall k | 0 <= k < |SplitLines(source)| ::
               Removable(SplitLines(source)[k], distribution) || Untouched(SplitLines(source)[k], distribution)
    ensures forall n: nat :: Derive(source, distribution, requestedVersion) == Err(PinCount(n))
                             <==> n == PinsOf(SplitLines(source), distribution) != 1
  {
    NormalizesExactly(distribution);
    SplitIsWellSplit(source);
    CollectCounts(SplitLines(source), distribution);
    assert ValidatedVersion(requestedVersion).Ok?;
    hide Removable, Untouched, Classify, NormalizedDistribution, ValidatedVersion, Collect, SplitLines, Join, PinsOf;
  }
}
