/** bytes.splitlines(keepends=True), and what happens to the lines of a text when one of them
    is taken out of it. */
module ConstraintLines {
  import opened Bytes
  import opened Ordering

  predicate IsBreak(b: Byte) {
    b == LF || b == CR
  }

  /** The length of the first line, its terminator included. */
  function LineLength(s: seq<Byte>): (n: nat)
    requires s != []
    ensures 0 < n <= |s|
  {
    if s[0] == LF then 1
    else if s[0] == CR then (if |s| > 1 && s[1] == LF then 2 else 1)
    else if |s| == 1 then 1
    else 1 + LineLength(s[1..])
  }

  /** bytes.splitlines(keepends=True) */
  function SplitLines(s: seq<Byte>): seq<seq<Byte>> {
    if s == [] then [] else [s[..LineLength(s)]] + SplitLines(s[LineLength(s)..])
  }

  /** b"".join(lines) */
  function Join(lines: seq<seq<Byte>>): seq<Byte> {
    if lines == [] then [] else lines[0] + Join(lines[1..])
  }

  /** line.rstrip(b"\r\n") */
  function RstripBreaks(line: seq<Byte>): seq<Byte> {
    if line != [] && IsBreak(line[|line| - 1]) then RstripBreaks(line[..|line| - 1]) else line
  }

  // The shape of a line: LF is 10, CR is 13.

  function BodyLength(line: seq<Byte>): (n: nat)
    ensures n <= |line|
    ensures forall i | 0 <= i < n :: line[i] != 10 && line[i] != 13
    ensures n < |line| ==> line[n] == 10 || line[n] == 13
  {
    if line == [] || line[0] == 10 || line[0] == 13 then 0 else 1 + BodyLength(line[1..])
  }

  function Body(line: seq<Byte>): seq<Byte> {
    line[..BodyLength(line)]
  }

  function Terminator(line: seq<Byte>): seq<Byte> {
    line[BodyLength(line)..]
  }

  predicate IsLine(line: seq<Byte>) {
    && line != []
    && (Terminator(line) == [] || Terminator(line) == [10] || Terminator(line) == [13] || Terminator(line) == [13, 10])
  }

  predicate EndsInBareCr(line: seq<Byte>) {
    Terminator(line) == [13]
  }

  predicate StartsWithLf(s: seq<Byte>) {
    s != [] && s[0] == 10
  }

  /** The lists of lines that splitting can return. */
  ghost predicate WellSplit(lines: seq<seq<Byte>>) {
    && (forall i | 0 <= i < |lines| :: IsLine(lines[i]))
    && (forall i | 0 <= i < |lines| - 1 ::
          Terminator(lines[i]) != [] && !(EndsInBareCr(lines[i]) && StartsWithLf(lines[i + 1])))
  }

  lemma BodyIs(body: seq<Byte>, terminator: seq<Byte>)
    requires forall i | 0 <= i < |body| :: !IsBreak(body[i])
    requires terminator != [] ==> IsBreak(terminator[0])
    ensures Body(body + terminator) == body && Terminator(body + terminator) == terminator
  {
    var line := body + terminator;
    var n := BodyLength(line);
    assert forall i | 0 <= i < |body| :: line[i] == body[i];
    assert terminator != [] ==> line[|body|] == terminator[0];
    assert n == |body|;
  }

  lemma RstripAppend(body: seq<Byte>, b: Byte)
    requires IsBreak(b)
    ensures RstripBreaks(body + [b]) == RstripBreaks(body)
  {
    assert (body + [b])[..|body + [b]| - 1] == body;
  }

  lemma RstripIsBody(line: seq<Byte>)
    requires IsLine(line)
    ensures RstripBreaks(line) == Body(line)
  {
    var body, t := Body(line), Terminator(line);
    assert line == body + t;
    assert RstripBreaks(body) == body;
    hide RstripBreaks, BodyLength;
    if t == [LF] || t == [CR] {
      RstripAppend(body, t[0]);
    } else if t == [CR, LF] {
      RstripAppend(body, CR);
      RstripAppend(body + [CR], LF);
      assert body + t == body + [CR] + [LF];
    } else {
      assert line == body;
    }
  }

  // Splitting and joining are inverse.

  lemma {:induction false} JoinSplit(s: seq<Byte>)
    ensures Join(SplitLines(s)) == s
  {
    if s != [] {
      JoinSplit(s[LineLength(s)..]);
    }
  }

  lemma {:induction false} FirstLineShape(s: seq<Byte>)
    requires s != []
    ensures var line, rest := s[..LineLength(s)], s[LineLength(s)..];
            IsLine(line) && (rest != [] ==> Terminator(line) != [] && !(EndsInBareCr(line) && StartsWithLf(rest)))
  {
    var n := LineLength(s);
    var line := s[..n];
    if s[0] == LF {
      BodyIs([], [LF]);
      assert line == [] + [LF];
    } else if s[0] == CR {
      if n == 2 {
        BodyIs([], [CR, LF]);
        assert line == [] + [CR, LF];
      } else {
        BodyIs([], [CR]);
        assert line == [] + [CR];
      }
    } else if |s| == 1 {
      BodyIs(s, []);
      assert line == s + [];
    } else {
      FirstLineShape(s[1..]);
      var tail := s[1..][..LineLength(s[1..])];
      assert line == [s[0]] + tail && line[1..] == tail;
      assert s[n..] == s[1..][LineLength(s[1..])..];
      assert Terminator(line) == Terminator(tail);
    }
  }

  lemma {:induction false} SplitIsWellSplit(s: seq<Byte>)
    ensures WellSplit(SplitLines(s))
  {
    if s != [] {
      var n := LineLength(s);
      var line, rest := s[..n], s[n..];
      FirstLineShape(s);
      SplitIsWellSplit(rest);
      var lines, more := SplitLines(s), SplitLines(rest);
      assert lines == [line] + more;
      if rest != [] {
        assert more[0] == rest[..LineLength(rest)];
      }
      forall i | 0 <= i < |lines| - 1
        ensures Terminator(lines[i]) != [] && !(EndsInBareCr(lines[i]) && StartsWithLf(lines[i + 1]))
      {
        if i > 0 {
          assert lines[i] == more[i - 1] && lines[i + 1] == more[i];
        }
      }
    }
  }

  lemma {:induction false} FirstLineOf(line: seq<Byte>, rest: seq<Byte>)
    requires IsLine(line)
    requires Terminator(line) == [] ==> rest == []
    requires !(EndsInBareCr(line) && StartsWithLf(rest))
    ensures LineLength(line + rest) == |line|
  {
    var s := line + rest;
    if BodyLength(line) > 0 {
      if |line| == 1 {
        assert s == line;
      } else {
        var tail := line[1..];
        assert Terminator(tail) == Terminator(line);
        FirstLineOf(tail, rest);
        assert s[1..] == tail + rest;
      }
    } else {
      assert line == Terminator(line);
    }
  }

  lemma {:induction false} SplitJoin(lines: seq<seq<Byte>>)
    requires WellSplit(lines)
    ensures SplitLines(Join(lines)) == lines
  {
    if lines != [] {
      var line, more := lines[0], lines[1..];
      var rest := Join(more);
      SplitJoin(more);
      if more != [] {
        assert rest[0] == more[0][0];
      }
      FirstLineOf(line, rest);
      assert Join(lines) == line + rest;
      assert (line + rest)[..|line|] == line && (line + rest)[|line|..] == rest;
    }
  }

  lemma {:induction false} JoinAppend(a: seq<seq<Byte>>, b: seq<seq<Byte>>)
    ensures Join(a + b) == Join(a) + Join(b)
  {
    if a == [] {
      assert a + b == b;
    } else {
      JoinAppend(a[1..], b);
      TailOfAppend(a, b);
      Associative(a[0], Join(a[1..]), Join(b));
    }
  }

  lemma JoinThree(a: seq<seq<Byte>>, b: seq<seq<Byte>>, c: seq<seq<Byte>>)
    ensures Join(a + b + c) == Join(a) + Join(b) + Join(c)
  {
    JoinAppend(a + b, c);
    JoinAppend(a, b);
  }

  // Taking out one line.

  function Without(lines: seq<seq<Byte>>, i: nat): seq<seq<Byte>>
    requires i < |lines|
  {
    lines[..i] + lines[i + 1..]
  }

  /** The neighbours of line i grow together once it is gone: a bare CR meets an LF. */
  predicate Fuses(lines: seq<seq<Byte>>, i: nat)
    requires i < |lines|
  {
    0 < i < |lines| - 1 && EndsInBareCr(lines[i - 1]) && StartsWithLf(lines[i + 1])
  }

  /** The lines of the text without line i. */
  function Resplit(lines: seq<seq<Byte>>, i: nat): seq<seq<Byte>>
    requires i < |lines|
  {
    if Fuses(lines, i) then lines[..i - 1] + [lines[i - 1] + [LF]] + lines[i + 2..]
    else Without(lines, i)
  }

  lemma LfLine(line: seq<Byte>)
    requires IsLine(line) && StartsWithLf(line)
    ensures line == [LF] && Body(line) == []
  {
    assert BodyLength(line) == 0;
    assert line == Terminator(line);
  }

  lemma FusedLine(line: seq<Byte>)
    requires IsLine(line) && EndsInBareCr(line)
    ensures IsLine(line + [LF]) && Body(line + [LF]) == Body(line) && Terminator(line + [LF]) == [CR, LF]
  {
    assert line == Body(line) + [CR];
    BodyIs(Body(line), [CR, LF]);
    assert line + [LF] == Body(line) + [CR, LF];
  }

  lemma AroundLine(lines: seq<seq<Byte>>, i: nat)
    requires i < |lines|
    ensures lines[..i] + [lines[i]] + lines[i + 1..] == lines
  {
  }

  lemma JoinWithout(lines: seq<seq<Byte>>, i: nat)
    requires i < |lines|
    ensures Join(Without(lines, i)) == Join(lines[..i]) + Join(lines[i + 1..])
    ensures Join(lines) == Join(lines[..i]) + lines[i] + Join(lines[i + 1..])
  {
    hide Join;
    var before, after := lines[..i], lines[i + 1..];
    JoinAppend(before, after);
    AroundLine(lines, i);
    JoinAround(before, lines[i], after);
  }

  lemma JoinAround(front: seq<seq<Byte>>, line: seq<Byte>, back: seq<seq<Byte>>)
    ensures Join(front + [line] + back) == Join(front) + line + Join(back)
  {
    JoinAppend(front, [line]);
    JoinAppend(front + [line], back);
    assert Join([line]) == line + Join([]);
  }

  /** A fused line is its two halves. */
  lemma JoinFused(front: seq<seq<Byte>>, cr: seq<Byte>, back: seq<seq<Byte>>)
    ensures Join(front + [cr + [LF]] + back) == Join(front + [cr]) + Join([[LF]] + back)
  {
    JoinAround(front, cr + [LF], back);
    JoinAround(front, cr, []);
    JoinAround([], [LF], back);
    assert front + [cr] == front + [cr] + [] && [[LF]] + back == [] + [[LF]] + back;
    hide Join;
    calc {
      Join(front + [cr + [LF]] + back);
      Join(front) + (cr + [LF]) + Join(back);
      { assert Join([]) == [] by { JoinAround([], cr, []); EmptyJoin(); } }
      (Join(front) + cr + Join([])) + (Join([]) + [LF] + Join(back));
      Join(front + [cr]) + Join([[LF]] + back);
    }
  }

  lemma EmptyJoin()
    ensures Join([]) == []
  {
  }

  lemma ResplitJoins(lines: seq<seq<Byte>>, i: nat)
    requires WellSplit(lines) && i < |lines|
    ensures Join(Resplit(lines, i)) == Join(Without(lines, i))
  {
    if Fuses(lines, i) {
      LfLine(lines[i + 1]);
      hide Join, WellSplit, EndsInBareCr, StartsWithLf;
      var front, back, cr := lines[..i - 1], lines[i + 2..], lines[i - 1];
      assert lines[..i] == front + [cr];
      assert lines[i + 1..] == [[LF]] + back;
      JoinWithout(lines, i);
      JoinFused(front, cr, back);
    }
  }

  lemma ResplitWellSplit(lines: seq<seq<Byte>>, i: nat)
    requires WellSplit(lines) && i < |lines|
    ensures WellSplit(Resplit(lines, i))
  {
    var after := Resplit(lines, i);
    if Fuses(lines, i) {
      LfLine(lines[i + 1]);
      FusedLine(lines[i - 1]);
      forall k | 0 <= k < |after| - 1
        ensures Terminator(after[k]) != [] && !(EndsInBareCr(after[k]) && StartsWithLf(after[k + 1]))
      {
        if k + 1 < i - 1 {
          assert after[k] == lines[k] && after[k + 1] == lines[k + 1];
        } else if k + 1 == i - 1 {
          assert after[k] == lines[k] && after[k + 1][0] == lines[k + 1][0];
        } else if k > i - 1 {
          assert after[k] == lines[k + 2] && after[k + 1] == lines[k + 3];
        }
      }
    } else {
      forall k | 0 <= k < |after| - 1
        ensures Terminator(after[k]) != [] && !(EndsInBareCr(after[k]) && StartsWithLf(after[k + 1]))
      {
        if k + 1 < i {
          assert after[k] == lines[k] && after[k + 1] == lines[k + 1];
        } else if k + 1 == i {
          assert after[k] == lines[k] && after[k + 1] == lines[k + 2];
        } else {
          assert after[k] == lines[k + 1] && after[k + 1] == lines[k + 2];
        }
      }
    }
  }

  /** Splitting a text again after one line was taken out of it. */
  lemma SplitWithout(s: seq<Byte>, i: nat)
    requires i < |SplitLines(s)|
    ensures SplitLines(Join(Without(SplitLines(s), i))) == Resplit(SplitLines(s), i)
  {
    SplitIsWellSplit(s);
    ResplitWellSplit(SplitLines(s), i);
    ResplitJoins(SplitLines(s), i);
    SplitJoin(Resplit(SplitLines(s), i));
  }
}
