/** Python's idea of white space in a str. */
module Text {

  /** str.isspace for one character: the ASCII and Unicode white space that str.strip removes
      and that the pattern \s matches. */
  predicate IsSpace(c: char) {
    var n := c as int;
    || 0x09 <= n <= 0x0D
    || 0x1C <= n <= 0x20
    || n == 0x85 || n == 0xA0 || n == 0x1680
    || 0x2000 <= n <= 0x200A
    || n == 0x2028 || n == 0x2029 || n == 0x202F || n == 0x205F || n == 0x3000
  }

  function StripLeft(s: string): string {
    if s != [] && IsSpace(s[0]) then StripLeft(s[1..]) else s
  }

  function StripRight(s: string): string {
    if s != [] && IsSpace(s[|s| - 1]) then StripRight(s[..|s| - 1]) else s
  }

  /** str.strip */
  function Strip(s: string): string {
    StripRight(StripLeft(s))
  }

  /** Nothing to strip. */
  predicate Trimmed(s: string) {
    s == [] || (!IsSpace(s[0]) && !IsSpace(s[|s| - 1]))
  }

  lemma {:induction false} StripLeftFacts(s: string)
    ensures StripLeft(s) == [] || !IsSpace(StripLeft(s)[0])
    ensures forall c :: c in StripLeft(s) ==> c in s
  {
    if s != [] && IsSpace(s[0]) {
      StripLeftFacts(s[1..]);
    }
  }

  lemma {:induction false} StripRightFacts(s: string)
    requires s == [] || !IsSpace(s[0])
    ensures Trimmed(StripRight(s))
    ensures forall c :: c in StripRight(s) ==> c in s
  {
    if s != [] && IsSpace(s[|s| - 1]) {
      StripRightFacts(s[..|s| - 1]);
    }
  }

  lemma StripTrims(s: string)
    ensures Trimmed(Strip(s))
    ensures Trimmed(s) ==> Strip(s) == s
    ensures forall c :: c in Strip(s) ==> c in s
  {
    StripLeftFacts(s);
    StripRightFacts(StripLeft(s));
  }

  lemma {:induction false} StripLeftCuts(s: string) returns (before: string)
    ensures s == before + StripLeft(s) && forall c | c in before :: IsSpace(c)
  {
    before := "";
    if s != [] && IsSpace(s[0]) {
      var rest := StripLeftCuts(s[1..]);
      before := [s[0]] + rest;
      assert s == [s[0]] + s[1..];
    }
  }

  lemma {:induction false} StripRightCuts(s: string) returns (after: string)
    ensures s == StripRight(s) + after && forall c | c in after :: IsSpace(c)
  {
    after := "";
    if s != [] && IsSpace(s[|s| - 1]) {
      var rest := StripRightCuts(s[..|s| - 1]);
      after := rest + [s[|s| - 1]];
      assert s == s[..|s| - 1] + [s[|s| - 1]];
    }
  }

  /** Stripping takes white space, and nothing else, from both ends, and all of it. */
  lemma StripExactly(s: string) returns (before: string, after: string)
    ensures s == before + Strip(s) + after && Trimmed(Strip(s))
    ensures forall c | c in before || c in after :: IsSpace(c)
  {
    StripTrims(s);
    before := StripLeftCuts(s);
    after := StripRightCuts(StripLeft(s));
  }
}
