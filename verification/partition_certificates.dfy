/** What a certificate says about the rows of the two tables, with the range by cases of the command
    line and the sums counted row by row. */
module PartitionCertificates {
  import opened Ordering
  import opened Partitions

  function CountIn(rows: seq<Row>, low: int, high: int): nat {
    if rows == [] then 0
    else (if low <= rows[0].id <= high then 1 else 0) + CountIn(rows[1..], low, high)
  }

  function SumOfIds(rows: seq<Row>, low: int, high: int): int {
    if rows == [] then 0
    else (if low <= rows[0].id <= high then rows[0].id else 0) + SumOfIds(rows[1..], low, high)
  }

  function SumOfCustomers(rows: seq<Row>, low: int, high: int): int {
    if rows == [] then 0
    else (if low <= rows[0].id <= high then rows[0].customerId else 0) + SumOfCustomers(rows[1..], low, high)
  }

  function Sums(rows: seq<Row>, low: int, high: int): Aggregate {
    Aggregate(CountIn(rows, low, high), SumOfIds(rows, low, high), SumOfCustomers(rows, low, high))
  }

  lemma AggregateFirst(rows: seq<Row>, b: Bounds)
    requires rows != []
    ensures AggregateOf(rows, b) == Add(Share(rows[0], Within(rows[0].id, b)), AggregateOf(rows[1..], b))
  {
    hide AggregateOf, Add, Share;
    AggregateAppend([rows[0]], rows[1..], b);
    AggregateStep([], rows[0], b);
    NoRows(b);
    NothingAdds(Share(rows[0], Within(rows[0].id, b)));
    assert [] + [rows[0]] == [rows[0]] && [rows[0]] + rows[1..] == rows;
  }

  lemma NothingAdds(a: Aggregate)
    ensures Add(Nothing(), a) == a
  {
  }

  /** The aggregate of a range is the count and the sums over its rows. */
  lemma {:induction false} AggregateMeaning(rows: seq<Row>, low: int, high: int)
    ensures AggregateOf(rows, Bounds(low, high)) == Sums(rows, low, high)
  {
    hide AggregateOf, Sums;
    if rows == [] {
      NoRows(Bounds(low, high));
      NoSums(low, high);
    } else {
      AggregateMeaning(rows[1..], low, high);
      AggregateFirst(rows, Bounds(low, high));
      SumsFirst(rows, low, high);
    }
  }

  lemma NoSums(low: int, high: int)
    ensures Sums([], low, high) == Nothing()
  {
  }

  lemma SumsFirst(rows: seq<Row>, low: int, high: int)
    requires rows != []
    ensures Sums(rows, low, high)
         == Add(Share(rows[0], Within(rows[0].id, Bounds(low, high))), Sums(rows[1..], low, high))
  {
    CountFirst(rows, low, high);
    IdsFirst(rows, low, high);
    CustomersFirst(rows, low, high);
    hide CountIn, SumOfIds, SumOfCustomers;
  }

  lemma CountFirst(rows: seq<Row>, low: int, high: int)
    requires rows != []
    ensures CountIn(rows, low, high) == (if low <= rows[0].id <= high then 1 else 0) + CountIn(rows[1..], low, high)
  {
  }

  lemma IdsFirst(rows: seq<Row>, low: int, high: int)
    requires rows != []
    ensures SumOfIds(rows, low, high)
         == (if low <= rows[0].id <= high then rows[0].id else 0) + SumOfIds(rows[1..], low, high)
  {
  }

  lemma CustomersFirst(rows: seq<Row>, low: int, high: int)
    requires rows != []
    ensures SumOfCustomers(rows, low, high)
         == (if low <= rows[0].id <= high then rows[0].customerId else 0) + SumOfCustomers(rows[1..], low, high)
  {
  }

  // The range and the number of partitions, by cases.

  /** As many partitions as asked for, but at least one; they begin where the range begins, end where
      it ends, and a number is in the range exactly when it is in exactly one of them. */
  lemma PlannedExactly(args: Option<StressArgs>, rows: int, low: int, high: int, x: int)
    requires RangeOf(args, rows, low, high)
    ensures var planned := PlannedPartitions(args, rows);
            && |planned| == (if args.Some? && args.value.numPartitions > 1 then args.value.numPartitions else 1)
            && planned[0].lower == low && planned[|planned| - 1].upper == high
            && (low <= x <= high <==> ExactlyOne(planned, (b: Bounds) => b.lower <= x <= b.upper))
  {
    var planned := PlannedPartitions(args, rows);
    PartitionsTile(x, |planned|, low, high);
    SameMembers(planned, x);
  }

  lemma SameMembers(planned: seq<Bounds>, x: int)
    ensures ExactlyOne(planned, (b: Bounds) => Within(x, b))
            <==> ExactlyOne(planned, (b: Bounds) => b.lower <= x <= b.upper)
  {
  }

  /** With more partitions than numbers, each of the first holds one number and the others none. */
  lemma SmallRanges(count: int, low: int, high: int, i: nat, x: int)
    requires i < count && high - low + 1 < count
    ensures var b := PartitionBounds(i, count, low, high);
            b.lower <= x <= b.upper <==> x == low + i && i <= high - low
  {
    StepFits(low, high, count);
    assert Step(low, high, count) == 1;
  }

  // When a certificate is given.

  predicate Fits(x: int) {
    -0x8000_0000_0000_0000 <= x < 0x8000_0000_0000_0000
  }

  predicate Congruent(x: int, y: int) {
    (x - y) % 0x1_0000_0000_0000_0000 == 0
  }

  /** The source can answer for the partition. */
  predicate Answers(source: seq<Row>, b: Bounds) {
    Fits(SumOfIds(source, b.lower, b.upper)) && Fits(SumOfCustomers(source, b.lower, b.upper))
  }

  /** The tables hold as many rows of the range, with congruent sums. */
  predicate Matching(source: seq<Row>, target: seq<Row>, low: int, high: int) {
    && CountIn(source, low, high) == CountIn(target, low, high)
    && Congruent(SumOfIds(source, low, high), SumOfIds(target, low, high))
    && Congruent(SumOfCustomers(source, low, high), SumOfCustomers(target, low, high))
  }

  lemma MultipleInSpan(d: int, m: int)
    requires m > 0 && d % m == 0 && -m < d < m
    ensures d == 0
  {
    assert d == m * (d / m);
  }

  /** Wrapping around is the one congruent value that fits. */
  lemma WrapExactly(x: int, y: int)
    ensures Wrap64(x) == y <==> Fits(y) && Congruent(x, y)
  {
    var m := 0x1_0000_0000_0000_0000;
    var q := (x + INT64) / m;
    assert x - Wrap64(x) == m * q;
    assert Congruent(x, Wrap64(x)) && Fits(Wrap64(x));
    if Fits(y) && Congruent(x, y) {
      var r := (x - y) / m;
      assert x - y == m * r;
      assert Wrap64(x) - y == m * (r - q);
      assert (Wrap64(x) - y) % m == 0;
      MultipleInSpan(Wrap64(x) - y, m);
    }
  }

  lemma ChecksumMeaning(source: seq<Row>, target: seq<Row>, b: Bounds)
    ensures SourceChecksum(source, b).Some? <==> Answers(source, b)
    ensures SourceChecksum(source, b).Some? ==>
              (SourceChecksum(source, b) == Some(TargetChecksum(target, b))
               <==> Matching(source, target, b.lower, b.upper))
  {
    AggregateMeaning(source, b.lower, b.upper);
    AggregateMeaning(target, b.lower, b.upper);
    WrapExactly(SumOfIds(target, b.lower, b.upper), SumOfIds(source, b.lower, b.upper));
    WrapExactly(SumOfCustomers(target, b.lower, b.upper), SumOfCustomers(source, b.lower, b.upper));
    hide AggregateOf, SumOfIds, SumOfCustomers, CountIn, Wrap64;
    Symmetric(SumOfIds(target, b.lower, b.upper), SumOfIds(source, b.lower, b.upper));
    Symmetric(SumOfCustomers(target, b.lower, b.upper), SumOfCustomers(source, b.lower, b.upper));
  }

  lemma Symmetric(x: int, y: int)
    ensures Congruent(x, y) <==> Congruent(y, x)
  {
    var m := 0x1_0000_0000_0000_0000;
    assert x - y == m * ((x - y) / m) + (x - y) % m;
    assert y - x == m * ((y - x) / m) + (y - x) % m;
    if Congruent(x, y) {
      assert y - x == m * -((x - y) / m);
    }
    if Congruent(y, x) {
      assert x - y == m * -((y - x) / m);
    }
  }

  lemma {:induction false} ObservesExactly(source: seq<Row>, target: seq<Row>, partitions: seq<Bounds>)
    ensures Observe(source, target, partitions).Some?
            <==> forall i | 0 <= i < |partitions| :: SourceChecksum(source, partitions[i]).Some?
  {
    hide SourceChecksum, TargetChecksum;
    if partitions != [] {
      ObservesExactly(source, target, partitions[..|partitions| - 1]);
    }
  }

  /** The certifier observes every partition exactly when the source answers for every one, and then
      certifies exactly when the tables match on every one. */
  lemma CertifiedExactly(source: seq<Row>, target: seq<Row>, args: Option<StressArgs>, rows: int)
    ensures var planned := PlannedPartitions(args, rows);
            var observed := Observe(source, target, planned);
            && (observed.Some? <==> forall i | 0 <= i < |planned| :: Answers(source, planned[i]))
            && (observed.Some? ==>
                  && |observed.value| == |planned|
                  && (forall i | 0 <= i < |planned| :: observed.value[i].bounds == planned[i])
                  && (Certified(observed.value)
                   <==> forall i | 0 <= i < |planned| ::
                          Matching(source, target, planned[i].lower, planned[i].upper)))
  {
    var planned := PlannedPartitions(args, rows);
    hide PlannedPartitions, SourceChecksum, TargetChecksum, Observe, Answers, Matching;
    ObservesExactly(source, target, planned);
    forall i | 0 <= i < |planned|
      ensures SourceChecksum(source, planned[i]).Some? <==> Answers(source, planned[i])
      ensures SourceChecksum(source, planned[i]).Some? ==>
                (SourceChecksum(source, planned[i]) == Some(TargetChecksum(target, planned[i]))
                 <==> Matching(source, target, planned[i].lower, planned[i].upper))
    {
      ChecksumMeaning(source, target, planned[i]);
    }
    if Observe(source, target, planned).Some? {
      ObservedAll(source, target, planned);
    }
  }

  /** A certificate says that the tables match on the range that the arguments describe. */
  lemma CertificateMeans(source: seq<Row>, target: seq<Row>, args: Option<StressArgs>, rows: int, low: int, high: int)
    requires RangeOf(args, rows, low, high)
    requires Observe(source, target, PlannedPartitions(args, rows)).Some?
    requires Certified(Observe(source, target, PlannedPartitions(args, rows)).value)
    ensures Matching(source, target, low, high)
  {
    hide Observe, PlannedPartitions, Certified, AggregateOf;
    CertificateCoversRange(source, target, args, rows, low, high);
    AggregateMeaning(source, low, high);
    AggregateMeaning(target, low, high);
    SameIsMatching(source, target, low, high);
  }

  lemma SameIsMatching(source: seq<Row>, target: seq<Row>, low: int, high: int)
    requires SameModulo64(AggregateOf(source, Bounds(low, high)), AggregateOf(target, Bounds(low, high)))
    ensures Matching(source, target, low, high)
  {
    AggregateMeaning(source, low, high);
    AggregateMeaning(target, low, high);
    hide AggregateOf, SumOfIds, SumOfCustomers, CountIn, Wrap64, Congruent;
    SameWrap(SumOfIds(source, low, high), SumOfIds(target, low, high));
    SameWrap(SumOfCustomers(source, low, high), SumOfCustomers(target, low, high));
  }

  lemma SameWrap(x: int, y: int)
    requires Wrap64(x) == Wrap64(y)
    ensures Congruent(x, y)
  {
    var m := 0x1_0000_0000_0000_0000;
    assert x == Wrap64(x) + m * ((x + INT64) / m);
    assert y == Wrap64(y) + m * ((y + INT64) / m);
    assert x - y == m * ((x + INT64) / m - (y + INT64) / m);
  }

  /** The tool's defaults: four partitions of 1 to the row count. A target with another number of rows
      there is never certified. */
  lemma DefaultRefuses(source: seq<Row>, target: seq<Row>, rows: int)
    requires CountIn(source, 1, rows) != CountIn(target, 1, rows)
    ensures var observed := Observe(source, target, PlannedPartitions(Some(StressArgs(1, None, 4)), rows));
            observed.Some? ==> !Certified(observed.value)
    ensures |PlannedPartitions(Some(StressArgs(1, None, 4)), rows)| == 4
  {
    var args := Some(StressArgs(1, None, 4));
    PlannedExactly(args, rows, 1, rows, 1);
    hide Observe, PlannedPartitions, Certified, CountIn;
    var observed := Observe(source, target, PlannedPartitions(args, rows));
    if observed.Some? && Certified(observed.value) {
      CertificateMeans(source, target, args, rows, 1, rows);
    }
  }
}
