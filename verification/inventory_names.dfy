/** The sorted names of a directory. */
module InventoryNames {
  import opened Ordering
  import opened FileSystem
  import opened SystemCalls

  ghost function Listing(names: set<string>): (r: seq<string>)
    ensures NoDuplicates(r)
    ensures forall name :: name in r <==> name in names
  {
    if names == {} then []
    else
      var name :| name in names;
      Listing(names - {name}) + [name]
  }

  /** The one sorted arrangement of a set of names. */
  ghost function SortedNames(names: set<string>): seq<string> {
    Sort(Listing(names), StringLeq)
  }

  lemma SortedNamesFacts(names: set<string>)
    ensures NoDuplicates(SortedNames(names)) && Sorted(SortedNames(names), StringLeq)
    ensures forall name :: name in SortedNames(names) <==> name in names
    ensures |SortedNames(names)| == |names|
  {
    var listing := Listing(names);
    StringOrder();
    SortSorts(listing, StringLeq);
    SortPermutes(listing, StringLeq);
    SortKeepsDistinct(listing, StringLeq);
    DistinctCardinality(listing);
    assert Elements(listing) == names;
  }

  /** Whatever order a listing comes in, sorting it gives the sorted names. */
  lemma ListingSorts(names: seq<string>, entries: map<string, NodeId>)
    requires Lists(names, false, entries)
    ensures Sort(names, StringLeq) == SortedNames(entries.Keys)
    ensures |names| == |entries|
  {
    StringOrder();
    SameElementsSamePermutation(names, Listing(entries.Keys));
    SortCanonical(names, Listing(entries.Keys), StringLeq);
    DistinctCardinality(names);
    assert Elements(names) == entries.Keys;
  }

  lemma ListingBounded(names: seq<string>, entries: map<string, NodeId>)
    requires Lists(names, true, entries)
    ensures |names| <= |entries|
  {
    DistinctCardinality(names);
    SubsetBounded(Elements(names), entries.Keys);
  }

  lemma SubsetBounded<T>(a: set<T>, b: set<T>)
    requires a <= b
    ensures |a| <= |b|
  {
    assert b == a + (b - a);
  }
}
