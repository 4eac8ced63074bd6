/** Recognising an exact pin, `name == version`, in one line of a constraints file, and the
    normalisation of distribution names (PEP 503, section "Normalized Names"). */
module ConstraintPins {
  import opened Bytes
  import opened Ordering
  import opened Text

  datatype PinError =
    | DistributionInvalid
    | VersionInvalid
    | VersionNotAscii
    | RequirementNotUtf8
    | PinCount(found: nat)

  // Names and versions.

  predicate IsSeparator(c: char) {
    c == '-' || c == '_' || c == '.'
  }

  /** re.sub(r"[-_.]+", "-", s) */
  function CollapseSeparators(s: string): string {
    if s == "" then ""
    else if !IsSeparator(s[0]) then [s[0]] + CollapseSeparators(s[1..])
    else if |s| > 1 && IsSeparator(s[1]) then CollapseSeparators(s[1..])
    else "-" + CollapseSeparators(s[1..])
  }

  /** str.lower for one character. Of the characters beyond ASCII only the Kelvin sign has an
      ASCII lower case; what the others become is refused in any case. */
  function LowerChar(c: char): char {
    if 'A' <= c <= 'Z' then ((c as int) + 32) as char
    else if c == '\U{212A}' then 'k'
    else c
  }

  function Lower(s: string): string {
    if s == "" then "" else [LowerChar(s[0])] + Lower(s[1..])
  }

  predicate IsNameLetter(c: char) {
    'a' <= c <= 'z' || '0' <= c <= '9'
  }

  /** [a-z0-9]+(?:-[a-z0-9]+)* */
  predicate IsNormalName(s: string) {
    && s != ""
    && (forall i | 0 <= i < |s| :: IsNameLetter(s[i]) || s[i] == '-')
    && s[0] != '-' && s[|s| - 1] != '-'
    && (forall i | 0 <= i < |s| - 1 :: !(s[i] == '-' && s[i + 1] == '-'))
  }

  /** `_normalized_distribution` */
  function NormalizedDistribution(value: string): Result<string, PinError> {
    var normalized := Lower(CollapseSeparators(Strip(value)));
    if IsNormalName(normalized) then Ok(normalized) else Err(DistributionInvalid)
  }

  /** `_validated_version` */
  function ValidatedVersion(value: string): Result<string, PinError> {
    var version := Strip(value);
    if version == "" || exists i | 0 <= i < |version| :: IsSpace(version[i]) then Err(VersionInvalid) else Ok(version)
  }

  lemma {:induction false} CollapseFixed(s: string)
    requires forall i | 0 <= i < |s| :: IsSeparator(s[i]) ==> s[i] == '-'
    requires forall i | 0 <= i < |s| - 1 :: !(s[i] == '-' && s[i + 1] == '-')
    ensures CollapseSeparators(s) == s
  {
    if s != "" {
      CollapseFixed(s[1..]);
      assert s == [s[0]] + s[1..];
    }
  }

  lemma {:induction false} LowerFixed(s: string)
    requires forall i | 0 <= i < |s| :: LowerChar(s[i]) == s[i]
    ensures Lower(s) == s
  {
    if s != "" {
      LowerFixed(s[1..]);
    }
  }

  lemma NormalNameFixed(n: string)
    requires IsNormalName(n)
    ensures NormalizedDistribution(n) == Ok(n)
  {
    assert forall i | 0 <= i < |n| :: IsNameLetter(n[i]) || n[i] == '-';
    StripTrims(n);
    CollapseFixed(n);
    LowerFixed(n);
  }

  /** A normalised name is its own normalisation. */
  lemma NormalizationIdempotent(value: string)
    requires NormalizedDistribution(value).Ok?
    ensures var n := NormalizedDistribution(value).value; NormalizedDistribution(n) == Ok(n)
  {
    NormalNameFixed(NormalizedDistribution(value).value);
  }

  // The pattern.

  predicate IsBlank(b: Byte) { b == SPACE || b == TAB }

  predicate IsAlnum(b: Byte) { 48 <= b <= 57 || 65 <= b <= 90 || 97 <= b <= 122 }

  /** [A-Za-z0-9_.-] */
  predicate IsNameByte(b: Byte) { IsAlnum(b) || b == 95 || b == 46 || b == 45 }

  const EQUALS: Byte := 61
  const SEMICOLON: Byte := 59
  const HASH: Byte := 35

  /** [^;# \t\r\n] */
  predicate IsVersionByte(b: Byte) {
    b != SEMICOLON && b != HASH && !IsBlank(b) && b != CR && b != LF
  }

  /** Where the run of bytes with property p that starts at i ends. */
  function RunEnd(s: seq<Byte>, i: nat, p: Byte -> bool): (j: nat)
    requires i <= |s|
    ensures i <= j <= |s|
    ensures forall k | i <= k < j :: p(s[k])
    ensures j < |s| ==> !p(s[j])
    decreases |s| - i
  {
    if i < |s| && p(s[i]) then RunEnd(s, i + 1, p) else i
  }

  lemma {:induction false} RunEndIs(s: seq<Byte>, i: nat, j: nat, p: Byte -> bool)
    requires i <= j <= |s|
    requires forall k | i <= k < j :: p(s[k])
    requires j < |s| ==> !p(s[j])
    ensures RunEnd(s, i, p) == j
    decreases j - i
  {
    if i < j {
      RunEndIs(s, i + 1, j, p);
    }
  }

  /** `(?:[ \t]*(?:;|#).*)?[ \t]*` up to the end: blanks, then perhaps a marker or a comment. */
  predicate IsTail(s: seq<Byte>, i: nat)
    requires i <= |s|
  {
    var j := RunEnd(s, i, IsBlank);
    j == |s| || ((s[j] == SEMICOLON || s[j] == HASH) && LF !in s[j..])
  }

  datatype Pin = Pin(name: seq<Byte>, version: seq<Byte>)

  /** `_EXACT_PIN.fullmatch`, by one left-to-right pass without backtracking. */
  function MatchPin(s: seq<Byte>): Option<Pin> {
    var nameStart := RunEnd(s, 0, IsBlank);
    if nameStart == |s| || !IsAlnum(s[nameStart]) then None
    else
      var nameEnd := RunEnd(s, nameStart, IsNameByte);
      var equals := RunEnd(s, nameEnd, IsBlank);
      if |s| < equals + 2 || s[equals] != EQUALS || s[equals + 1] != EQUALS then None
      else
        var versionStart := RunEnd(s, equals + 2, IsBlank);
        var versionEnd := RunEnd(s, versionStart, IsVersionByte);
        if versionEnd == versionStart || !IsTail(s, versionEnd) then None
        else Some(Pin(s[nameStart..nameEnd], s[versionStart..versionEnd]))
  }

  /** The pattern itself, in byte values: the places a..f cut s into blanks, name, blanks, `==`,
      blanks, version, blanks and comment. */
  ghost predicate CutsPin(s: seq<Byte>, a: nat, b: nat, c: nat, d: nat, e: nat, f: nat) {
    && a < b <= c && c + 2 <= d < e <= f <= |s|
    && AllBlank(s, 0, a)
    && IsLetterCode(s[a])
    && (forall k | a <= k < b :: IsLetterCode(s[k]) || s[k] == 45 || s[k] == 46 || s[k] == 95)
    && AllBlank(s, b, c)
    && s[c] == 61 && s[c + 1] == 61
    && AllBlank(s, c + 2, d)
    && (forall k | d <= k < e :: s[k] != 59 && s[k] != 35 && s[k] != 32 && s[k] != 9 && s[k] != 13 && s[k] != 10)
    && AllBlank(s, e, f)
    && (f == |s| || ((s[f] == 59 || s[f] == 35) && 10 !in s[f..]))
  }

  /** Digits, capital and small letters. */
  predicate IsLetterCode(c: int) {
    48 <= c <= 57 || 65 <= c <= 90 || 97 <= c <= 122
  }

  ghost predicate AllBlank(s: seq<Byte>, from: nat, to: nat)
    requires from <= to <= |s|
  {
    forall k | from <= k < to :: s[k] == 32 || s[k] == 9
  }

  ghost predicate IsPin(s: seq<Byte>, pin: Pin) {
    exists a: nat, b: nat, c: nat, d: nat, e: nat, f: nat ::
      CutsPin(s, a, b, c, d, e, f) && pin == Pin(s[a..b], s[d..e])
  }

  lemma Runs(s: seq<Byte>, from: nat)
    requires from <= |s|
    ensures AllBlank(s, from, RunEnd(s, from, IsBlank))
    ensures forall k | from <= k < RunEnd(s, from, IsNameByte) ::
              IsLetterCode(s[k]) || s[k] == 45 || s[k] == 46 || s[k] == 95
    ensures forall k | from <= k < RunEnd(s, from, IsVersionByte) ::
              s[k] != 59 && s[k] != 35 && s[k] != 32 && s[k] != 9 && s[k] != 13 && s[k] != 10
  {
  }

  lemma MatchIsPin(s: seq<Byte>)
    requires MatchPin(s).Some?
    ensures IsPin(s, MatchPin(s).value)
  {
    hide IsTail, AllBlank, IsLetterCode, CutsPin, IsBlank, IsNameByte, IsAlnum, IsVersionByte;
    var a := RunEnd(s, 0, IsBlank);
    var b := RunEnd(s, a, IsNameByte);
    var c := RunEnd(s, b, IsBlank);
    var d := RunEnd(s, c + 2, IsBlank);
    var e := RunEnd(s, d, IsVersionByte);
    RunsCut(s, a, b, c, d, e, RunEnd(s, e, IsBlank));
  }

  lemma RunsCut(s: seq<Byte>, a: nat, b: nat, c: nat, d: nat, e: nat, f: nat)
    requires a < |s| && c + 2 <= |s|
    requires RunEnd(s, 0, IsBlank) == a && RunEnd(s, a, IsNameByte) == b && RunEnd(s, b, IsBlank) == c
    requires RunEnd(s, c + 2, IsBlank) == d && RunEnd(s, d, IsVersionByte) == e && RunEnd(s, e, IsBlank) == f
    requires IsAlnum(s[a]) && s[c] == EQUALS && s[c + 1] == EQUALS && d < e && IsTail(s, e)
    ensures CutsPin(s, a, b, c, d, e, f)
  {
    hide IsTail, AllBlank, IsLetterCode, RunEnd, IsBlank, IsNameByte, IsAlnum, IsVersionByte;
    NameRun(s, a);
    TailRun(s, e);
    Runs(s, 0);
    Runs(s, b);
    Runs(s, c + 2);
    Runs(s, d);
  }

  lemma NameRun(s: seq<Byte>, a: nat)
    requires a < |s| && IsAlnum(s[a])
    ensures var b := RunEnd(s, a, IsNameByte);
            && a < b && IsLetterCode(s[a])
            && forall k | a <= k < b :: IsLetterCode(s[k]) || s[k] == 45 || s[k] == 46 || s[k] == 95
  {
    Runs(s, a);
    assert IsNameByte(s[a]);
  }

  lemma TailRun(s: seq<Byte>, e: nat)
    requires e <= |s| && IsTail(s, e)
    ensures var f := RunEnd(s, e, IsBlank);
            AllBlank(s, e, f) && (f == |s| || ((s[f] == 59 || s[f] == 35) && 10 !in s[f..]))
  {
    Runs(s, e);
  }

  lemma CutRuns(s: seq<Byte>, a: nat, b: nat, c: nat, d: nat, e: nat, f: nat)
    requires CutsPin(s, a, b, c, d, e, f)
    ensures RunEnd(s, 0, IsBlank) == a && RunEnd(s, a, IsNameByte) == b && RunEnd(s, b, IsBlank) == c
    ensures RunEnd(s, c + 2, IsBlank) == d && RunEnd(s, d, IsVersionByte) == e && RunEnd(s, e, IsBlank) == f
  {
    hide RunEnd;
    assert b < c ==> IsBlank(s[b]);
    assert e < f ==> IsBlank(s[e]);
    assert IsVersionByte(s[d]);
    RunEndIs(s, 0, a, IsBlank);
    RunEndIs(s, a, b, IsNameByte);
    RunEndIs(s, b, c, IsBlank);
    RunEndIs(s, c + 2, d, IsBlank);
    RunEndIs(s, d, e, IsVersionByte);
    RunEndIs(s, e, f, IsBlank);
  }

  lemma CutIsMatched(s: seq<Byte>, a: nat, b: nat, c: nat, d: nat, e: nat, f: nat)
    requires CutsPin(s, a, b, c, d, e, f)
    ensures MatchPin(s) == Some(Pin(s[a..b], s[d..e]))
  {
    hide RunEnd;
    CutRuns(s, a, b, c, d, e, f);
    hide IsBlank, IsNameByte, IsVersionByte, AllBlank, IsAlnum;
    assert IsTail(s, e);
  }

  /** The pass finds a pin exactly where the pattern matches, and the pattern is unambiguous. */
  lemma MatcherExact(s: seq<Byte>, pin: Pin)
    ensures MatchPin(s) == Some(pin) <==> IsPin(s, pin)
  {
    if MatchPin(s) == Some(pin) {
      MatchIsPin(s);
    }
    if IsPin(s, pin) {
      var a: nat, b: nat, c: nat, d: nat, e: nat, f: nat :|
        CutsPin(s, a, b, c, d, e, f) && pin == Pin(s[a..b], s[d..e]);
      CutIsMatched(s, a, b, c, d, e, f);
    }
  }
}
