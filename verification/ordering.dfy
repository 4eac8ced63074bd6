/** Sorting, total orders and list helpers shared by every model: Python's `sorted`,
    `dict.fromkeys`, list comprehensions with a filter, and the comparison of strings
    by code point. */
module Ordering {

  datatype Option<+T> = None | Some(value: T)

  datatype Result<+T, +E> = Ok(value: T) | Err(error: E)

  ghost predicate TotalOrder<T(!new)>(leq: (T, T) -> bool) {
    && (forall x, y :: leq(x, y) || leq(y, x))
    && (forall x, y :: leq(x, y) && leq(y, x) ==> x == y)
    && (forall x, y, z :: leq(x, y) && leq(y, z) ==> leq(x, z))
  }

  ghost predicate Sorted<T>(s: seq<T>, leq: (T, T) -> bool) {
    forall i, j | 0 <= i < j < |s| :: leq(s[i], s[j])
  }

  ghost predicate NoDuplicates<T>(s: seq<T>) {
    forall i, j | 0 <= i < j < |s| :: s[i] != s[j]
  }

  lemma FrontAndLast<T>(s: seq<T>)
    requires s != []
    ensures s[..|s| - 1] + [s[|s| - 1]] == s
  {
  }

  lemma FirstAndRest<T>(s: seq<T>)
    requires s != []
    ensures [s[0]] + s[1..] == s && multiset(s) == multiset(s[1..]) + multiset{s[0]}
  {
    assert [s[0]] + s[1..] == s;
  }

  lemma LastOfSlice<T>(s: seq<T>, i: nat, j: nat)
    requires i < j <= |s|
    ensures s[i..j] == s[i..j - 1] + [s[j - 1]]
  {
  }

  lemma FirstOfSlice<T>(s: seq<T>, i: nat, j: nat)
    requires i < j <= |s|
    ensures s[i..j] == [s[i]] + s[i + 1..j]
  {
  }

  lemma LastOfStart<T>(s: seq<T>, i: nat)
    requires 0 < i <= |s|
    ensures s[..i] == s[..i - 1] + [s[i - 1]]
  {
  }

  lemma FirstOfRest<T>(s: seq<T>, i: nat)
    requires i < |s|
    ensures s[i..] == [s[i]] + s[i + 1..]
  {
  }

  lemma Associative<T>(a: seq<T>, b: seq<T>, c: seq<T>)
    ensures (a + b) + c == a + (b + c)
  {
  }

  lemma TailOfAppend<T>(a: seq<T>, b: seq<T>)
    requires a != []
    ensures (a + b)[0] == a[0] && (a + b)[1..] == a[1..] + b
  {
  }

  lemma DistinctIndex<T>(s: seq<T>, i: nat, j: nat)
    requires NoDuplicates(s) && i < |s| && j < |s| && s[i] == s[j]
    ensures i == j
  {
  }

  function Elements<T>(s: seq<T>): set<T> {
    set x | x in s
  }

  /** The elements of a set in some order, as iterating over it gives them. */
  method ListOf<T(==)>(elements: set<T>) returns (r: seq<T>)
    ensures NoDuplicates(r) && Elements(r) == elements
  {
    r := [];
    var rest := elements;
    while rest != {}
      invariant NoDuplicates(r) && Elements(r) + rest == elements && Elements(r) !! rest
      decreases |rest|
    {
      var e :| e in rest;
      assert e !in Elements(r);
      r, rest := r + [e], rest - {e};
      assert Elements(r) == Elements(r[..|r| - 1]) + {e};
    }
  }

  function Insert<T>(x: T, s: seq<T>, leq: (T, T) -> bool): seq<T> {
    if s == [] then [x]
    else if leq(x, s[0]) then [x] + s
    else [s[0]] + Insert(x, s[1..], leq)
  }

  /** Python's `sorted`. */
  function Sort<T>(s: seq<T>, leq: (T, T) -> bool): seq<T> {
    if s == [] then [] else Insert(s[0], Sort(s[1..], leq), leq)
  }

  lemma {:induction false} InsertPermutes<T>(x: T, s: seq<T>, leq: (T, T) -> bool)
    ensures multiset(Insert(x, s, leq)) == multiset(s) + multiset{x}
  {
    if s == [] {
    } else {
      assert s == [s[0]] + s[1..];
      if !leq(x, s[0]) {
        InsertPermutes(x, s[1..], leq);
      }
    }
  }

  lemma {:induction false} SortPermutes<T>(s: seq<T>, leq: (T, T) -> bool)
    ensures multiset(Sort(s, leq)) == multiset(s)
    ensures |Sort(s, leq)| == |s|
    ensures forall x :: x in Sort(s, leq) <==> x in s
  {
    if s == [] {
    } else {
      assert s == [s[0]] + s[1..];
      SortPermutes(s[1..], leq);
      InsertPermutes(s[0], Sort(s[1..], leq), leq);
    }
    PermutationBasics(Sort(s, leq), s);
  }

  lemma PermutationBasics<T>(a: seq<T>, b: seq<T>)
    requires multiset(a) == multiset(b)
    ensures |a| == |b|
    ensures forall x :: x in a <==> x in b
  {
    assert |a| == |multiset(a)| == |multiset(b)| == |b|;
    forall x ensures x in a <==> x in b {
      assert x in a <==> x in multiset(a);
      assert x in b <==> x in multiset(b);
    }
  }

  lemma OneMore<T>(front: seq<T>, x: T, back: seq<T>)
    ensures multiset(front + [x] + back) == multiset(front + back) + multiset{x}
  {
  }

  lemma CancelOne<T>(a: multiset<T>, b: multiset<T>, x: T)
    requires a + multiset{x} == b + multiset{x}
    ensures a == b
  {
    assert a == a + multiset{x} - multiset{x};
    assert b == b + multiset{x} - multiset{x};
  }

  /** An element of one arrangement, found and taken out of another. */
  lemma TakeOutElement<T>(front: seq<T>, x: T, back: seq<T>, b: seq<T>) returns (k: nat)
    requires multiset(front + [x] + back) == multiset(b)
    ensures k < |b| && b[k] == x && b == b[..k] + [b[k]] + b[k + 1..]
    ensures multiset(front + back) == multiset(b[..k] + b[k + 1..])
  {
    OneMore(front, x, back);
    assert x in multiset(b);
    k :| 0 <= k < |b| && b[k] == x;
    var before, after := b[..k], b[k + 1..];
    assert b == before + [x] + after;
    OneMore(before, x, after);
    CancelOne(multiset(front + back), multiset(before + after), x);
  }

  /** The last element of one arrangement, found and taken out of another. */
  lemma TakeOut<T>(a: seq<T>, b: seq<T>) returns (k: nat)
    requires a != [] && multiset(a) == multiset(b)
    ensures k < |b| && b[k] == a[|a| - 1]
    ensures b == b[..k] + [b[k]] + b[k + 1..]
    ensures multiset(a[..|a| - 1]) == multiset(b[..k] + b[k + 1..])
  {
    var init, last := a[..|a| - 1], a[|a| - 1];
    assert a == init + [last] + [] && init + [] == init;
    k := TakeOutElement(init, last, [], b);
  }

  lemma TakeOutFirst<T>(a: seq<T>, b: seq<T>) returns (k: nat)
    requires a != [] && multiset(a) == multiset(b)
    ensures k < |b| && b[k] == a[0]
    ensures multiset(a[1..]) == multiset(b[..k] + b[k + 1..])
  {
    assert a == [] + [a[0]] + a[1..] && [] + a[1..] == a[1..];
    k := TakeOutElement([], a[0], a[1..], b);
  }

  lemma {:induction false} InsertSorted<T(!new)>(x: T, s: seq<T>, leq: (T, T) -> bool)
    requires TotalOrder(leq) && Sorted(s, leq)
    ensures Sorted(Insert(x, s, leq), leq)
  {
    if s == [] || leq(x, s[0]) {
    } else {
      InsertSorted(x, s[1..], leq);
      var rest := Insert(x, s[1..], leq);
      InsertPermutes(x, s[1..], leq);
      forall j | 0 <= j < |rest| ensures leq(s[0], rest[j]) {
        assert rest[j] in multiset(rest);
        assert rest[j] == x || rest[j] in s[1..];
      }
    }
  }

  lemma {:induction false} SortSorts<T(!new)>(s: seq<T>, leq: (T, T) -> bool)
    requires TotalOrder(leq)
    ensures Sorted(Sort(s, leq), leq)
  {
    if s != [] {
      SortSorts(s[1..], leq);
      InsertSorted(s[0], Sort(s[1..], leq), leq);
    }
  }

  /** A sorted arrangement is determined by the elements it arranges. */
  lemma {:induction false} SortedUnique<T(!new)>(a: seq<T>, b: seq<T>, leq: (T, T) -> bool)
    requires TotalOrder(leq) && Sorted(a, leq) && Sorted(b, leq)
    requires multiset(a) == multiset(b)
    ensures a == b
  {
    PermutationBasics(a, b);
    if a != [] {
      assert a[0] in b && b[0] in a;
      assert a[0] == b[0] by {
        assert leq(b[0], a[0]);
        assert leq(a[0], b[0]);
      }
      FirstAndRest(a);
      FirstAndRest(b);
      CancelOne(multiset(a[1..]), multiset(b[1..]), a[0]);
      SortedUnique(a[1..], b[1..], leq);
    }
  }

  lemma SortCanonical<T(!new)>(a: seq<T>, b: seq<T>, leq: (T, T) -> bool)
    requires TotalOrder(leq) && multiset(a) == multiset(b)
    ensures Sort(a, leq) == Sort(b, leq)
  {
    SortPermutes(a, leq);
    SortPermutes(b, leq);
    SortSorts(a, leq);
    SortSorts(b, leq);
    SortedUnique(Sort(a, leq), Sort(b, leq), leq);
  }

  lemma {:induction false} SortFixed<T>(s: seq<T>, leq: (T, T) -> bool)
    requires Sorted(s, leq)
    ensures Sort(s, leq) == s
  {
    if s != [] {
      SortFixed(s[1..], leq);
    }
  }

  /** Sorting by a key that strictly increases along b arranges any permutation of b as b. */
  lemma {:induction false} SortByKey<T>(a: seq<T>, b: seq<T>, leq: (T, T) -> bool, key: T -> int)
    requires multiset(a) == multiset(b)
    requires forall x, y | x in b && y in b :: leq(x, y) <==> key(x) <= key(y)
    requires forall i, j | 0 <= i < j < |b| :: key(b[i]) < key(b[j])
    ensures Sort(a, leq) == b
  {
    if a == [] {
      assert |multiset(b)| == 0;
    } else {
      var k := TakeOutFirst(a, b);
      SortByKey(a[1..], b[..k] + b[k + 1..], leq, key);
      InsertBack(b, k, leq, key);
    }
  }

  lemma {:induction false} InsertBack<T>(b: seq<T>, k: nat, leq: (T, T) -> bool, key: T -> int)
    requires k < |b|
    requires forall x, y | x in b && y in b :: leq(x, y) <==> key(x) <= key(y)
    requires forall i, j | 0 <= i < j < |b| :: key(b[i]) < key(b[j])
    ensures Insert(b[k], b[..k] + b[k + 1..], leq) == b
  {
    var rest := b[..k] + b[k + 1..];
    if k > 0 {
      assert key(b[0]) < key(b[k]);
      assert rest[0] == b[0] && rest[1..] == b[1..][..k - 1] + b[1..][k..];
      InsertBack(b[1..], k - 1, leq, key);
    } else if |b| > 1 {
      assert key(b[0]) < key(b[1]);
    }
  }

  lemma SortKeepsDistinct<T>(s: seq<T>, leq: (T, T) -> bool)
    ensures NoDuplicates(Sort(s, leq)) <==> NoDuplicates(s)
  {
    SortPermutes(s, leq);
    DistinctByCount(s);
    DistinctByCount(Sort(s, leq));
  }

  lemma {:induction false} DistinctByCount<T>(s: seq<T>)
    ensures NoDuplicates(s) <==> forall x :: multiset(s)[x] <= 1
  {
    if s == [] {
    } else {
      assert s == [s[0]] + s[1..];
      assert multiset(s) == multiset{s[0]} + multiset(s[1..]);
      DistinctByCount(s[1..]);
      if NoDuplicates(s) {
        assert s[0] !in s[1..];
        assert multiset(s[1..])[s[0]] == 0;
      }
      if forall x :: multiset(s)[x] <= 1 {
        FirstIsFresh(s);
      }
    }
  }

  lemma FirstIsFresh<T>(s: seq<T>)
    requires s != [] && forall x :: multiset(s)[x] <= 1
    ensures s[0] !in s[1..]
    ensures forall x :: multiset(s[1..])[x] <= 1
  {
    assert s == [s[0]] + s[1..];
    assert multiset(s) == multiset{s[0]} + multiset(s[1..]);
    assert multiset(s)[s[0]] <= 1;
    assert multiset(s[1..])[s[0]] == 0;
    assert s[0] !in multiset(s[1..]);
    forall x ensures multiset(s[1..])[x] <= 1 {
      assert multiset(s)[x] <= 1;
    }
  }

  lemma SameElementsSamePermutation<T>(a: seq<T>, b: seq<T>)
    requires NoDuplicates(a) && NoDuplicates(b)
    requires forall x :: x in a <==> x in b
    ensures multiset(a) == multiset(b)
  {
    DistinctByCount(a);
    DistinctByCount(b);
    forall x ensures multiset(a)[x] == multiset(b)[x] {
      assert x in multiset(a) <==> x in a;
      assert x in multiset(b) <==> x in b;
    }
  }

  lemma DistinctTail<T>(s: seq<T>)
    requires s != []
    ensures NoDuplicates(s) <==> s[0] !in s[1..] && NoDuplicates(s[1..])
  {
    var rest := s[1..];
    assert forall k | 0 <= k < |rest| :: rest[k] == s[k + 1];
    if s[0] in rest {
      var k :| 0 <= k < |rest| && rest[k] == s[0];
      assert s[k + 1] == s[0];
    }
  }

  lemma {:induction false} DistinctCardinality<T>(s: seq<T>)
    ensures |Elements(s)| <= |s|
    ensures |Elements(s)| == |s| <==> NoDuplicates(s)
  {
    if s == [] {
    } else {
      var rest := s[1..];
      DistinctCardinality(rest);
      DistinctTail(s);
      assert s == [s[0]] + rest;
      hide NoDuplicates;
      assert Elements(s) == Elements(rest) + {s[0]};
      assert s[0] in Elements(rest) ==> Elements(s) == Elements(rest);
    }
  }

  /** A subset of a finite set that has as many elements is the whole set. */
  lemma FullSubset<T>(a: set<T>, b: set<T>)
    requires a <= b && |b| <= |a|
    ensures a == b
  {
    var extra := b - a;
    assert b == a + extra;
    assert |b| == |a| + |extra|;
  }

  /** A list comprehension with a condition. */
  function Filter<T>(s: seq<T>, keep: T -> bool): seq<T> {
    if s == [] then []
    else (if keep(s[0]) then [s[0]] else []) + Filter(s[1..], keep)
  }

  lemma {:induction false} FilterCounts<T>(s: seq<T>, keep: T -> bool, x: T)
    ensures multiset(Filter(s, keep))[x] == if keep(x) then multiset(s)[x] else 0
  {
    if s != [] {
      assert s == [s[0]] + s[1..];
      assert multiset(s) == multiset{s[0]} + multiset(s[1..]);
      FilterCounts(s[1..], keep, x);
    }
  }

  lemma FilterMember<T>(s: seq<T>, keep: T -> bool, x: T)
    ensures x in Filter(s, keep) <==> x in s && keep(x)
  {
    FilterCounts(s, keep, x);
    assert x in s <==> x in multiset(s);
    assert x in Filter(s, keep) <==> x in multiset(Filter(s, keep));
  }

  lemma {:induction false} FilterShorter<T>(s: seq<T>, keep: T -> bool)
    ensures |Filter(s, keep)| <= |s|
  {
    if s != [] {
      FilterShorter(s[1..], keep);
    }
  }

  lemma {:induction false} FilterSorted<T>(s: seq<T>, keep: T -> bool, leq: (T, T) -> bool)
    requires Sorted(s, leq)
    ensures Sorted(Filter(s, keep), leq)
  {
    if s != [] {
      FilterSorted(s[1..], keep, leq);
      var rest := Filter(s[1..], keep);
      forall j | 0 <= j < |rest| ensures leq(s[0], rest[j]) {
        FilterMember(s[1..], keep, rest[j]);
        assert rest[j] in rest;
      }
    }
  }

  lemma FilterDistinct<T>(s: seq<T>, keep: T -> bool)
    requires NoDuplicates(s)
    ensures NoDuplicates(Filter(s, keep))
  {
    DistinctByCount(s);
    DistinctByCount(Filter(s, keep));
    forall x ensures multiset(Filter(s, keep))[x] <= 1 {
      FilterCounts(s, keep, x);
    }
  }

  lemma {:induction false} FilterAppend<T>(a: seq<T>, b: seq<T>, keep: T -> bool)
    ensures Filter(a + b, keep) == Filter(a, keep) + Filter(b, keep)
  {
    if a == [] {
      assert a + b == b;
    } else {
      assert (a + b)[0] == a[0] && (a + b)[1..] == a[1..] + b;
      FilterAppend(a[1..], b, keep);
      var head := if keep(a[0]) then [a[0]] else [];
      calc {
        Filter(a + b, keep);
        head + Filter((a + b)[1..], keep);
        head + (Filter(a[1..], keep) + Filter(b, keep));
        (head + Filter(a[1..], keep)) + Filter(b, keep);
        Filter(a, keep) + Filter(b, keep);
      }
    }
  }

  ghost predicate ExactlyOne<T>(s: seq<T>, p: T -> bool) {
    && (exists i | 0 <= i < |s| :: p(s[i]))
    && (forall i, j | 0 <= i < j < |s| :: !(p(s[i]) && p(s[j])))
  }

  lemma {:induction false} FilterNone<T>(s: seq<T>, p: T -> bool)
    ensures Filter(s, p) == [] <==> forall i | 0 <= i < |s| :: !p(s[i])
  {
    if s != [] {
      FilterNone(s[1..], p);
      if Filter(s, p) == [] {
        forall i | 0 <= i < |s| ensures !p(s[i]) {
          assert i > 0 ==> s[i] == s[1..][i - 1];
        }
      }
    }
  }

  lemma {:induction false} FilterOne<T>(s: seq<T>, p: T -> bool)
    ensures |Filter(s, p)| == 1 <==> ExactlyOne(s, p)
  {
    if s != [] {
      var rest := s[1..];
      FilterOne(rest, p);
      FilterNone(rest, p);
      assert forall i | 0 < i < |s| :: s[i] == rest[i - 1];
      if p(s[0]) {
        assert |Filter(s, p)| == 1 <==> Filter(rest, p) == [];
        if ExactlyOne(s, p) {
          forall i | 0 <= i < |rest| ensures !p(rest[i]) {
            assert rest[i] == s[i + 1];
          }
        }
      } else {
        assert |Filter(s, p)| == |Filter(rest, p)|;
        OneInTail(s, p);
      }
    }
  }

  lemma OneInTail<T>(s: seq<T>, p: T -> bool)
    requires s != [] && !p(s[0])
    ensures ExactlyOne(s, p) <==> ExactlyOne(s[1..], p)
  {
    var rest := s[1..];
    assert forall i | 0 <= i < |rest| :: rest[i] == s[i + 1];
    if ExactlyOne(s, p) {
      var i :| 0 <= i < |s| && p(s[i]);
      assert p(rest[i - 1]);
    }
    if ExactlyOne(rest, p) {
      var i :| 0 <= i < |rest| && p(rest[i]);
      assert p(s[i + 1]);
      forall i, j | 0 <= i < j < |s| ensures !(p(s[i]) && p(s[j])) {
        if i > 0 {
          assert s[i] == rest[i - 1] && s[j] == rest[j - 1];
        }
      }
    }
  }

  lemma SameCounts<T>(a: multiset<T>, b: multiset<T>)
    requires forall x :: a[x] == b[x]
    ensures a == b
  {
    forall x | x in a ensures a[x] == b[x] {}
    forall x | x in b ensures a[x] == b[x] {}
    assert a <= b && b <= a;
  }

  lemma FilterPermutes<T>(a: seq<T>, b: seq<T>, keep: T -> bool)
    requires multiset(a) == multiset(b)
    ensures multiset(Filter(a, keep)) == multiset(Filter(b, keep))
    ensures |Filter(a, keep)| == |Filter(b, keep)|
  {
    var left, right := multiset(Filter(a, keep)), multiset(Filter(b, keep));
    forall x ensures left[x] == right[x] {
      FilterCounts(a, keep, x);
      FilterCounts(b, keep, x);
    }
    SameCounts(left, right);
    PermutationBasics(Filter(a, keep), Filter(b, keep));
  }

  /** `tuple(dict.fromkeys(values))`: the first occurrence of each value. */
  function Dedup<T(==)>(s: seq<T>): (r: seq<T>)
    ensures r == [] <==> s == []
  {
    if s == [] then []
    else
      var before := Dedup(s[..|s| - 1]);
      if s[|s| - 1] in before then before else before + [s[|s| - 1]]
  }

  // Strings are compared by code point, as Python compares str.

  predicate StringLeq(a: string, b: string) {
    a == [] || (b != [] && if a[0] == b[0] then StringLeq(a[1..], b[1..]) else a[0] < b[0])
  }

  predicate PairLeq(a: (string, string), b: (string, string)) {
    if a.0 == b.0 then StringLeq(a.1, b.1) else StringLeq(a.0, b.0)
  }

  lemma {:induction false} StringTotal(a: string, b: string)
    ensures StringLeq(a, b) || StringLeq(b, a)
  {
    if a != [] && b != [] {
      StringTotal(a[1..], b[1..]);
    }
  }

  lemma {:induction false} StringAntisymmetric(a: string, b: string)
    requires StringLeq(a, b) && StringLeq(b, a)
    ensures a == b
  {
    if a != [] && b != [] {
      assert a == [a[0]] + a[1..] && b == [b[0]] + b[1..];
      StringAntisymmetric(a[1..], b[1..]);
    }
  }

  lemma {:induction false} StringTransitive(a: string, b: string, c: string)
    requires StringLeq(a, b) && StringLeq(b, c)
    ensures StringLeq(a, c)
  {
    if a != [] {
      if a[0] == b[0] && b[0] == c[0] {
        StringTransitive(a[1..], b[1..], c[1..]);
      }
    }
  }

  lemma StringOrder()
    ensures TotalOrder(StringLeq)
  {
    forall x, y ensures StringLeq(x, y) || StringLeq(y, x) { StringTotal(x, y); }
    forall x, y | StringLeq(x, y) && StringLeq(y, x) ensures x == y { StringAntisymmetric(x, y); }
    forall x, y, z | StringLeq(x, y) && StringLeq(y, z) ensures StringLeq(x, z) { StringTransitive(x, y, z); }
  }

  lemma PairOrder()
    ensures TotalOrder(PairLeq)
  {
    forall x, y ensures PairLeq(x, y) || PairLeq(y, x) {
      StringTotal(x.0, y.0);
      StringTotal(x.1, y.1);
    }
    forall x, y | PairLeq(x, y) && PairLeq(y, x) ensures x == y {
      if x.0 == y.0 {
        StringAntisymmetric(x.1, y.1);
      } else {
        StringAntisymmetric(x.0, y.0);
      }
    }
    forall x, y, z | PairLeq(x, y) && PairLeq(y, z) ensures PairLeq(x, z) { PairTransitive(x, y, z); }
  }

  lemma PairTransitive(x: (string, string), y: (string, string), z: (string, string))
    requires PairLeq(x, y) && PairLeq(y, z)
    ensures PairLeq(x, z)
  {
    if x.0 == y.0 == z.0 {
      StringTransitive(x.1, y.1, z.1);
    } else if x.0 != y.0 && y.0 != z.0 {
      StringTransitive(x.0, y.0, z.0);
      if x.0 == z.0 {
        StringAntisymmetric(x.0, y.0);
      }
    }
  }

  // What these orders and the removal of duplicates mean.

  /** At the first place where they differ, a has the smaller character. */
  ghost predicate DiffersBelow(a: string, b: string) {
    exists k: nat | k < |a| && k < |b| :: a[..k] == b[..k] && a[k] < b[k]
  }

  lemma {:induction false} StringLeqExactly(a: string, b: string)
    ensures StringLeq(a, b) <==> a <= b || DiffersBelow(a, b)
  {
    if a != [] && b != [] {
      if a[0] == b[0] {
        StringLeqExactly(a[1..], b[1..]);
        TailDiffers(a, b);
        assert a == [a[0]] + a[1..] && b == [b[0]] + b[1..];
        assert a <= b <==> a[1..] <= b[1..];
      } else {
        assert a[..0] == b[..0];
        assert !(a <= b);
        forall k: nat | 0 < k < |a| && k < |b| ensures a[..k] != b[..k] {
          assert a[..k][0] != b[..k][0];
        }
      }
    }
  }

  lemma TailDiffers(a: string, b: string)
    requires a != [] && b != [] && a[0] == b[0]
    ensures DiffersBelow(a, b) <==> DiffersBelow(a[1..], b[1..])
  {
    if DiffersBelow(a, b) {
      var k: nat :| k < |a| && k < |b| && a[..k] == b[..k] && a[k] < b[k];
      assert k > 0 && a[1..][..k - 1] == a[..k][1..] == b[1..][..k - 1];
      assert a[1..][k - 1] < b[1..][k - 1];
    }
    if DiffersBelow(a[1..], b[1..]) {
      var k: nat :| k < |a[1..]| && k < |b[1..]| && a[1..][..k] == b[1..][..k] && a[1..][k] < b[1..][k];
      assert a[..k + 1] == [a[0]] + a[1..][..k] && b[..k + 1] == [b[0]] + b[1..][..k];
      assert a[k + 1] < b[k + 1];
    }
  }

  ghost predicate FirstAt<T>(s: seq<T>, x: T, k: nat) {
    k < |s| && s[k] == x && forall m | 0 <= m < k :: s[m] != x
  }

  /** Every value once, in the order of the first occurrences. */
  lemma {:induction false} DedupExactly<T>(s: seq<T>)
    ensures NoDuplicates(Dedup(s)) && forall x :: x in Dedup(s) <==> x in s
    ensures forall i, j, m, n | 0 <= i < j < |Dedup(s)| && FirstAt(s, Dedup(s)[i], m) && FirstAt(s, Dedup(s)[j], n) ::
              m < n
  {
    if s != [] {
      var init, last := s[..|s| - 1], s[|s| - 1];
      DedupExactly(init);
      FrontAndLast(s);
      var before := Dedup(init);
      forall i, j, m, n | 0 <= i < j < |Dedup(s)| && FirstAt(s, Dedup(s)[i], m) && FirstAt(s, Dedup(s)[j], n)
        ensures m < n
      {
        if j < |before| {
          assert Dedup(s)[i] == before[i] && Dedup(s)[j] == before[j];
          FirstEarlier(s, before[i], m);
          FirstEarlier(s, before[j], n);
        } else {
          assert Dedup(s)[i] == before[i] && Dedup(s)[j] == last && last !in before;
          FirstEarlier(s, before[i], m);
        }
      }
    }
  }

  lemma FirstEarlier<T>(s: seq<T>, x: T, k: nat)
    requires FirstAt(s, x, k) && x in s[..|s| - 1]
    ensures FirstAt(s[..|s| - 1], x, k)
  {
    var i :| 0 <= i < |s| - 1 && s[..|s| - 1][i] == x;
    assert s[i] == x;
  }
}
