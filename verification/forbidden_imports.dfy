/** Which newly imported modules a parse must not bring in. */
module ForbiddenImports {
  import opened Ordering

  function FirstDot(s: string): (k: nat)
    ensures k <= |s| && (k < |s| ==> s[k] == '.') && forall i | 0 <= i < k :: s[i] != '.'
  {
    if s == "" || s[0] == '.' then 0 else 1 + FirstDot(s[1..])
  }

  /** name.split(".") */
  function Segments(name: string): seq<string> {
    var k := FirstDot(name);
    if k == |name| then [name] else [name[..k]] + Segments(name[k + 1..])
  }

  /** The name has this text at i, between dots or the ends of the name. */
  predicate DelimitedAt(name: string, segment: string, i: nat) {
    && i + |segment| <= |name|
    && name[i..i + |segment|] == segment
    && (i == 0 || name[i - 1] == '.')
    && (i + |segment| == |name| || name[i + |segment|] == '.')
  }

  /** The segments of a name are the texts without dots that stand between dots or its ends. */
  lemma {:induction false} SegmentExactly(name: string, segment: string)
    requires '.' !in segment
    ensures segment in Segments(name) <==> exists i :: DelimitedAt(name, segment, i)
  {
    var k := FirstDot(name);
    if k < |name| {
      var rest := name[k + 1..];
      SegmentExactly(rest, segment);
      if segment == name[..k] {
        assert DelimitedAt(name, segment, 0);
      }
      if i :| DelimitedAt(rest, segment, i) {
        DelimitedLater(name, segment, k, i);
      }
    } else if segment == name {
      assert DelimitedAt(name, segment, 0);
    }
    if i :| DelimitedAt(name, segment, i) {
      DelimitedFound(name, segment, i);
    }
  }

  lemma DelimitedLater(name: string, segment: string, k: nat, i: nat)
    requires k < |name| && name[k] == '.'
    ensures DelimitedAt(name[k + 1..], segment, i) <==> DelimitedAt(name, segment, k + 1 + i)
  {
    var rest := name[k + 1..];
    if i + |segment| <= |rest| {
      assert rest[i..i + |segment|] == name[k + 1 + i..k + 1 + i + |segment|];
    }
  }

  lemma DelimitedFirst(name: string, segment: string)
    requires '.' !in segment && DelimitedAt(name, segment, 0)
    ensures segment == name[..FirstDot(name)]
  {
    assert segment == name[..|segment|];
    assert forall j | 0 <= j < |segment| :: name[j] == segment[j];
  }

  lemma DelimitedAfter(name: string, segment: string, i: nat)
    requires i > 0 && DelimitedAt(name, segment, i)
    ensures FirstDot(name) < i && FirstDot(name) < |name|
  {
    assert name[i - 1] == '.';
  }

  lemma DelimitedFound(name: string, segment: string, i: nat)
    requires '.' !in segment && DelimitedAt(name, segment, i)
    ensures var k := FirstDot(name);
            segment == name[..k] || (k < i && k < |name| && DelimitedAt(name[k + 1..], segment, i - k - 1))
  {
    hide DelimitedAt;
    if i == 0 {
      DelimitedFirst(name, segment);
    } else {
      DelimitedAfter(name, segment, i);
      DelimitedLater(name, segment, FirstDot(name), i - FirstDot(name) - 1);
    }
  }

  function ForbiddenSegments(): seq<string> { ["vault_kv_client", "cache_sync", "cache_refresh"] }

  predicate OccursAt(s: string, text: string, i: nat) {
    i + |text| <= |s| && s[i..i + |text|] == text
  }

  /** text in s */
  predicate Contains(s: string, text: string) {
    exists i | 0 <= i <= |s| :: OccursAt(s, text, i)
  }

  predicate Forbidden(name: string) {
    (exists segment | segment in Segments(name) :: segment in ForbiddenSegments()) || Contains(name, ".cache.refresh")
  }

  /** `forbidden_parse_imports`: the forbidden ones among the new modules, sorted. */
  method ForbiddenParseImports(before: set<string>, after: set<string>) returns (r: seq<string>)
    ensures Sorted(r, StringLeq) && NoDuplicates(r)
    ensures forall name :: name in r <==> name in after && name !in before && Forbidden(name)
  {
    hide Forbidden, StringLeq;
    var found := set name | name in after - before && Forbidden(name);
    var listed := ListOf(found);
    StringOrder();
    SortSorts(listed, StringLeq);
    SortPermutes(listed, StringLeq);
    SortKeepsDistinct(listed, StringLeq);
    r := Sort(listed, StringLeq);
    forall name ensures name in r <==> name in found {
      assert name in listed <==> name in Elements(listed);
    }
  }

  /** Somewhere between dots or the ends of the name. */
  ghost predicate Delimited(name: string, segment: string) {
    exists i :: DelimitedAt(name, segment, i)
  }

  ghost predicate Around(s: string, text: string) {
    exists before: string, after: string :: s == before + text + after
  }

  /** A module is forbidden exactly when one of three names stands between its dots or ends, or
      `.cache.refresh` somewhere in it. */
  lemma ForbiddenExactly(name: string)
    ensures Forbidden(name)
            <==> || Delimited(name, "vault_kv_client") || Delimited(name, "cache_sync")
                 || Delimited(name, "cache_refresh") || Around(name, ".cache.refresh")
  {
    hide Delimited, Segments, Forbidden, Contains, Around;
    DelimitedExactly(name, "vault_kv_client");
    DelimitedExactly(name, "cache_sync");
    DelimitedExactly(name, "cache_refresh");
    ContainsExactly(name, ".cache.refresh");
    ThreeSegments(Segments(name));
    ForbiddenParts(name);
  }

  lemma DelimitedExactly(name: string, segment: string)
    requires '.' !in segment
    ensures segment in Segments(name) <==> Delimited(name, segment)
  {
    SegmentExactly(name, segment);
  }

  lemma ForbiddenParts(name: string)
    ensures Forbidden(name)
            <==> || (exists segment | segment in Segments(name) :: segment in ForbiddenSegments())
                 || Contains(name, ".cache.refresh")
  {
    hide Segments, ForbiddenSegments, Contains;
  }

  lemma ThreeSegments(segments: seq<string>)
    ensures (exists segment | segment in segments :: segment in ForbiddenSegments())
            <==> "vault_kv_client" in segments || "cache_sync" in segments || "cache_refresh" in segments
  {
    var f := ForbiddenSegments();
    assert f[0] in f && f[1] in f && f[2] in f;
  }

  lemma ContainsExactly(s: string, text: string)
    ensures Contains(s, text) <==> Around(s, text)
  {
    if Contains(s, text) {
      var i :| 0 <= i <= |s| && OccursAt(s, text, i);
      assert s == s[..i] + text + s[i + |text|..];
    }
    if before: string, after: string :| s == before + text + after {
      assert s[|before|..|before| + |text|] == text;
      assert OccursAt(s, text, |before|);
    }
  }
}
