/** The range partitions of the fault-injection certifier and the checksums taken over them. */
module Partitions {
  import opened Ordering

  datatype Bounds = Bounds(lower: int, upper: int)

  /** The command line of a stress run, as far as the partitions depend on it. */
  datatype StressArgs = StressArgs(lowerBound: int, upperBound: Option<int>, numPartitions: int)

  function Lower(args: Option<StressArgs>): int {
    match args case Some(a) => a.lowerBound case None => 1
  }

  /** `upper_bound or rows`: no upper bound, and also 0, means the row count. */
  function Upper(args: Option<StressArgs>, rows: int): int {
    match args
    case Some(a) => (if a.upperBound.Some? && a.upperBound.value != 0 then a.upperBound.value else rows)
    case None => rows
  }

  function Max(a: int, b: int): int { if a < b then b else a }

  function Min(a: int, b: int): int { if a < b then a else b }

  function Span(lower: int, upper: int): int { Max(1, upper - lower + 1) }

  function Step(lower: int, upper: int, count: int): int
    requires count >= 1
  {
    Max(1, Span(lower, upper) / count)
  }

  /** `_partition_bounds` */
  function PartitionBounds(index: nat, count: int, lower: int, upper: int): Bounds
    requires count >= 1
  {
    var step := Step(lower, upper, count);
    var partLower := lower + index * step;
    Bounds(partLower, if index == count - 1 then upper else Min(upper, partLower + step - 1))
  }

  /** `_planned_partitions` and `_committed_checkpoints`: the bounds of all partitions. */
  function PlannedPartitions(args: Option<StressArgs>, rows: int): (r: seq<Bounds>)
    ensures |r| >= 1
  {
    var count := Max(1, match args case Some(a) => a.numPartitions case None => 1);
    AllBounds(count, count, Lower(args), Upper(args, rows))
  }

  function AllBounds(n: nat, count: int, lower: int, upper: int): (r: seq<Bounds>)
    requires n <= count && count >= 1
    ensures |r| == n && forall i | 0 <= i < n :: r[i] == PartitionBounds(i, count, lower, upper)
  {
    if n == 0 then [] else AllBounds(n - 1, count, lower, upper) + [PartitionBounds(n - 1, count, lower, upper)]
  }

  predicate Within(x: int, b: Bounds) { b.lower <= x <= b.upper }

  // The partitions tile the range.

  lemma {:induction false} Products(i: nat, j: nat, step: int)
    requires i < j && step >= 1
    ensures i * step + step <= j * step
    decreases j
  {
    if i + 1 < j {
      Products(i, j - 1, step);
      assert (j - 1) * step + step == j * step;
    } else {
      assert (i + 1) * step == i * step + step;
    }
  }

  /** The step leaves room for the last partition. */
  lemma StepFits(lower: int, upper: int, count: int)
    requires count >= 1
    ensures var span, step := Span(lower, upper), Step(lower, upper, count);
            && step >= 1
            && (span >= count ==> step == span / count && (count - 1) * step + step + span % count == span)
            && (span < count ==> step == 1)
  {
    var span := Span(lower, upper);
    assert span == count * (span / count) + span % count;
    if span >= count {
      assert span / count >= 1;
      var step := span / count;
      assert (count - 1) * step + step == count * step;
    } else {
      assert span / count == 0;
    }
  }

  /** Which partition a number of the range falls into. */
  function Home(x: int, count: int, lower: int, upper: int): int
    requires count >= 1
  {
    Min(count - 1, (x - lower) / Step(lower, upper, count))
  }

  lemma QuotientBounds(x: int, step: int)
    requires x >= 0 && step >= 1
    ensures 0 <= x / step && (x / step) * step <= x < (x / step) * step + step
  {
    assert x == step * (x / step) + x % step;
  }

  /** Every number of the range lies in its home partition and in no other; no partition
      contains any other number. */
  lemma TilesRange(x: int, count: int, lower: int, upper: int, i: nat)
    requires 0 <= i < count
    ensures Within(x, PartitionBounds(i, count, lower, upper))
            <==> lower <= x <= upper && i == Home(x, count, lower, upper)
  {
    var step := Step(lower, upper, count);
    StepFits(lower, upper, count);
    if Within(x, PartitionBounds(i, count, lower, upper)) {
      assert i * step >= 0 by { Products(0, i + 1, step); assert (i + 1) * step == i * step + step; }
      assert lower <= x <= upper;
      QuotientBounds(x - lower, step);
      QuotientUnique(x - lower, step, i, count);
    }
    if lower <= x <= upper && i == Home(x, count, lower, upper) {
      QuotientBounds(x - lower, step);
      var q := (x - lower) / step;
      if i < q {
        Products(i, q, step);
      }
    }
  }

  /** A quotient is pinned by its bounds (the last partition has no upper one). */
  lemma QuotientUnique(x: int, step: int, i: nat, count: int)
    requires x >= 0 && step >= 1 && i < count
    requires i * step <= x && (i < count - 1 ==> x < i * step + step)
    ensures Min(count - 1, x / step) == i
  {
    QuotientBounds(x, step);
    var q := x / step;
    if q < i {
      Products(q, i, step);
    } else if i < q && i < count - 1 {
      Products(i, q, step);
    }
  }

  /** The partitions cover the range: a number lies in it exactly when it lies in exactly one of
      them, also when there are more partitions than numbers or no numbers at all. */
  lemma PartitionsTile(x: int, count: int, lower: int, upper: int)
    requires count >= 1
    ensures lower <= x <= upper
            <==> ExactlyOne(AllBounds(count, count, lower, upper), (b: Bounds) => Within(x, b))
  {
    var partitions := AllBounds(count, count, lower, upper);
    var home := Home(x, count, lower, upper);
    hide PartitionBounds, Home;
    forall i | 0 <= i < count ensures Within(x, partitions[i]) <==> lower <= x <= upper && i == home {
      TilesRange(x, count, lower, upper, i);
    }
    HomeInRange(x, count, lower, upper);
    if lower <= x <= upper {
      assert Within(x, partitions[home]);
    }
  }

  /** The partitions come in order and do not meet. */
  lemma PartitionsOrdered(count: int, lower: int, upper: int, i: nat, j: nat)
    requires 0 <= i < j < count
    ensures PartitionBounds(i, count, lower, upper).upper < PartitionBounds(j, count, lower, upper).lower
  {
    StepFits(lower, upper, count);
    Products(i, j, Step(lower, upper, count));
  }

  function Size(b: Bounds): int { Max(0, b.upper - b.lower + 1) }

  /** With at least as many numbers as partitions, all partitions but the last have the same size,
      and the last, which may be the only one, is larger by the remainder. */
  lemma PartitionSizes(count: int, lower: int, upper: int, i: nat)
    requires 0 <= i < count <= Span(lower, upper) && lower <= upper
    ensures Size(PartitionBounds(i, count, lower, upper))
         == Span(lower, upper) / count + if i == count - 1 then Span(lower, upper) % count else 0
  {
    var step := Step(lower, upper, count);
    StepFits(lower, upper, count);
    if i < count - 1 {
      Products(i, count - 1, step);
    }
  }

  // The checksums.

  /** A row of the benchmark table, with the columns the checksums read. */
  datatype Row = Row(id: int, customerId: int)

  datatype Aggregate = Aggregate(count: nat, sumId: int, sumCustomerId: int)

  function Add(a: Aggregate, b: Aggregate): Aggregate {
    Aggregate(a.count + b.count, a.sumId + b.sumId, a.sumCustomerId + b.sumCustomerId)
  }

  function Nothing(): Aggregate { Aggregate(0, 0, 0) }

  /** COUNT(*), SUM(id) and SUM(customer_id) over the rows with an id in the bounds. */
  function AggregateOf(rows: seq<Row>, b: Bounds): Aggregate {
    if rows == [] then Nothing()
    else
      var rest, row := AggregateOf(rows[..|rows| - 1], b), rows[|rows| - 1];
      if Within(row.id, b) then Add(rest, Aggregate(1, row.id, row.customerId)) else rest
  }

  function Total(rows: seq<Row>, partitions: seq<Bounds>): Aggregate {
    if partitions == [] then Nothing()
    else Add(AggregateOf(rows, partitions[0]), Total(rows, partitions[1..]))
  }

  function Share(row: Row, counted: bool): Aggregate {
    if counted then Aggregate(1, row.id, row.customerId) else Nothing()
  }

  lemma AggregateStep(rows: seq<Row>, row: Row, b: Bounds)
    ensures AggregateOf(rows + [row], b) == Add(AggregateOf(rows, b), Share(row, Within(row.id, b)))
  {
    assert (rows + [row])[..|rows|] == rows;
  }

  lemma {:induction false} TotalStep(rows: seq<Row>, row: Row, partitions: seq<Bounds>, home: int)
    requires forall i | 0 <= i < |partitions| :: Within(row.id, partitions[i]) <==> i == home
    ensures Total(rows + [row], partitions) == Add(Total(rows, partitions), Share(row, 0 <= home < |partitions|))
  {
    SharesNothing(row);
    hide AggregateOf, Within, Share, Add;
    if partitions == [] {
      assert Total(rows + [row], partitions) == Nothing() && Total(rows, partitions) == Nothing();
    } else {
      var rest := partitions[1..];
      forall i | 0 <= i < |rest| ensures Within(row.id, rest[i]) <==> i == home - 1 {
        assert rest[i] == partitions[i + 1];
      }
      TotalStep(rows, row, rest, home - 1);
      AggregateStep(rows, row, partitions[0]);
      assert Within(row.id, partitions[0]) <==> home == 0;
      SharesAdd(AggregateOf(rows, partitions[0]), Total(rows, rest), row, home == 0, 0 <= home - 1 < |rest|);
      assert (0 <= home < |partitions|) == (home == 0 || 0 <= home - 1 < |rest|);
    }
  }

  lemma SharesNothing(row: Row)
    ensures Add(Nothing(), Share(row, false)) == Nothing()
  {
  }

  lemma SharesAdd(a: Aggregate, b: Aggregate, row: Row, first: bool, later: bool)
    requires !(first && later)
    ensures Add(Add(a, Share(row, first)), Add(b, Share(row, later))) == Add(Add(a, b), Share(row, first || later))
  {
  }

  lemma NoRows(b: Bounds)
    ensures AggregateOf([], b) == Nothing()
  {
  }

  lemma {:induction false} TotalNothing(partitions: seq<Bounds>)
    ensures Total([], partitions) == Nothing()
  {
    if partitions != [] {
      NoRows(partitions[0]);
      hide AggregateOf;
      TotalNothing(partitions[1..]);
    }
  }

  /** Conservation: the partitions' aggregates add up to the aggregate of the whole range. */
  lemma {:induction false} AggregatesConserve(rows: seq<Row>, count: int, lower: int, upper: int)
    requires count >= 1
    ensures Total(rows, AllBounds(count, count, lower, upper)) == AggregateOf(rows, Bounds(lower, upper))
  {
    var partitions := AllBounds(count, count, lower, upper);
    if rows == [] {
      TotalNothing(partitions);
    } else {
      hide AggregateOf, Total, Share, Add;
      var init, row := rows[..|rows| - 1], rows[|rows| - 1];
      AggregatesConserve(init, count, lower, upper);
      ConserveOne(init, row, count, lower, upper);
      FrontAndLast(rows);
    }
  }

  /** One more row adds the same to both sides. */
  lemma ConserveOne(rows: seq<Row>, row: Row, count: int, lower: int, upper: int)
    requires count >= 1
    requires Total(rows, AllBounds(count, count, lower, upper)) == AggregateOf(rows, Bounds(lower, upper))
    ensures Total(rows + [row], AllBounds(count, count, lower, upper))
        == AggregateOf(rows + [row], Bounds(lower, upper))
  {
    hide AggregateOf, Total, Share, Add, Home, PartitionBounds;
    var partitions := AllBounds(count, count, lower, upper);
    var home := if Within(row.id, Bounds(lower, upper)) then Home(row.id, count, lower, upper) else -1;
    forall i | 0 <= i < |partitions| ensures Within(row.id, partitions[i]) <==> i == home {
      TilesRange(row.id, count, lower, upper, i);
    }
    HomeInRange(row.id, count, lower, upper);
    TotalStep(rows, row, partitions, home);
    AggregateStep(rows, row, Bounds(lower, upper));
  }

  lemma HomeInRange(x: int, count: int, lower: int, upper: int)
    requires count >= 1
    ensures x >= lower ==> 0 <= Home(x, count, lower, upper) < count
  {
    StepFits(lower, upper, count);
    if x >= lower {
      QuotientBounds(x - lower, Step(lower, upper, count));
    }
  }

  // Certification.

  const INT64: int := 0x8000_0000_0000_0000

  predicate FitsInt64(x: int) { -INT64 <= x < INT64 }

  /** Two's complement wrap-around to 64 bits. */
  function Wrap64(x: int): int {
    (x + INT64) % (2 * INT64) - INT64
  }

  /** `_mssql_partition_checksum`: SUM over bigint raises an error when it overflows. */
  function SourceChecksum(rows: seq<Row>, b: Bounds): Option<Aggregate> {
    var a := AggregateOf(rows, b);
    if FitsInt64(a.sumId) && FitsInt64(a.sumCustomerId) then Some(a) else None
  }

  /** `_clickhouse_partition_checksum`: sum over Int64 wraps around. */
  function TargetChecksum(rows: seq<Row>, b: Bounds): Aggregate {
    var a := AggregateOf(rows, b);
    Aggregate(a.count, Wrap64(a.sumId), Wrap64(a.sumCustomerId))
  }

  datatype Observation = Observation(bounds: Bounds, source: Aggregate, target: Aggregate)

  /** Both checks of the count_and_checksum profile, for one partition. */
  predicate Agrees(o: Observation) {
    o.source.count == o.target.count && o.source == o.target
  }

  /** The observations of all partitions, or None once the source query fails. */
  function Observe(source: seq<Row>, target: seq<Row>, partitions: seq<Bounds>): Option<seq<Observation>> {
    if partitions == [] then Some([])
    else
      var last := partitions[|partitions| - 1];
      match (Observe(source, target, partitions[..|partitions| - 1]), SourceChecksum(source, last))
      case (Some(before), Some(checksum)) => Some(before + [Observation(last, checksum, TargetChecksum(target, last))])
      case (_, _) => None
  }

  /** The partition loop of `_certify_partition_correctness`. */
  method ObservePartitions(source: seq<Row>, target: seq<Row>, args: Option<StressArgs>, rows: int)
    returns (observations: Option<seq<Observation>>)
    ensures observations == Observe(source, target, PlannedPartitions(args, rows))
  {
    var partitions := PlannedPartitions(args, rows);
    var found: seq<Observation> := [];
    for i := 0 to |partitions|
      invariant Observe(source, target, partitions[..i]) == Some(found)
    {
      var checksum := SourceChecksum(source, partitions[i]);
      assert partitions[..i + 1][..i] == partitions[..i];
      if checksum.None? {
        FailedObservation(source, target, partitions, i);
        return None;
      }
      found := found + [Observation(partitions[i], checksum.value, TargetChecksum(target, partitions[i]))];
    }
    assert partitions[..|partitions|] == partitions;
    observations := Some(found);
  }

  lemma {:induction false} FailedObservation(source: seq<Row>, target: seq<Row>, partitions: seq<Bounds>, i: nat)
    requires i < |partitions| && SourceChecksum(source, partitions[i]).None?
    ensures Observe(source, target, partitions).None?
  {
    if i < |partitions| - 1 {
      FailedObservation(source, target, partitions[..|partitions| - 1], i);
    }
  }

  /** `PartitionCorrectnessService.certify` for the count_and_checksum profile. */
  predicate Certified(observations: seq<Observation>) {
    forall i | 0 <= i < |observations| :: Agrees(observations[i])
  }

  lemma {:induction false} ObservedAll(source: seq<Row>, target: seq<Row>, partitions: seq<Bounds>)
    requires Observe(source, target, partitions).Some?
    ensures var o := Observe(source, target, partitions).value;
            |o| == |partitions|
            && forall i | 0 <= i < |o| ::
                 o[i].bounds == partitions[i] && SourceChecksum(source, partitions[i]) == Some(o[i].source)
                 && o[i].target == TargetChecksum(target, partitions[i])
  {
    if partitions != [] {
      ObservedAll(source, target, partitions[..|partitions| - 1]);
    }
  }

  lemma WrapAdds(a: int, b: int, c: int)
    requires Wrap64(a) == Wrap64(b)
    ensures Wrap64(a + c) == Wrap64(b + c)
  {
    var m := 0x1_0000_0000_0000_0000;
    var k := (a + INT64) / m - (b + INT64) / m;
    assert a == b + m * k;
    assert (a + c + INT64) % m == (b + c + INT64 + m * k) % m;
  }

  /** Equal aggregates, up to what 64-bit sums can tell. */
  predicate SameModulo64(a: Aggregate, b: Aggregate) {
    a.count == b.count && Wrap64(a.sumId) == Wrap64(b.sumId) && Wrap64(a.sumCustomerId) == Wrap64(b.sumCustomerId)
  }

  lemma SameModulo64Adds(a: Aggregate, b: Aggregate, c: Aggregate, d: Aggregate)
    requires SameModulo64(a, b) && SameModulo64(c, d)
    ensures SameModulo64(Add(a, c), Add(b, d))
  {
    WrapAdds(a.sumId, b.sumId, c.sumId);
    WrapAdds(c.sumId, d.sumId, b.sumId);
    WrapAdds(a.sumCustomerId, b.sumCustomerId, c.sumCustomerId);
    WrapAdds(c.sumCustomerId, d.sumCustomerId, b.sumCustomerId);
  }

  lemma {:induction false} TotalsAgree(source: seq<Row>, target: seq<Row>, partitions: seq<Bounds>)
    requires forall i | 0 <= i < |partitions| ::
               SourceChecksum(source, partitions[i]) == Some(TargetChecksum(target, partitions[i]))
    ensures SameModulo64(Total(source, partitions), Total(target, partitions))
  {
    if partitions != [] {
      TotalsAgree(source, target, partitions[1..]);
      var a, b := AggregateOf(source, partitions[0]), AggregateOf(target, partitions[0]);
      assert Some(a) == Some(TargetChecksum(target, partitions[0]));
      WrapTwice(b.sumId);
      WrapTwice(b.sumCustomerId);
      SameModulo64Adds(a, b, Total(source, partitions[1..]), Total(target, partitions[1..]));
    }
  }

  lemma WrapTwice(x: int)
    ensures FitsInt64(Wrap64(x)) && Wrap64(Wrap64(x)) == Wrap64(x)
  {
  }

  /** low and high are the ends of the range: without a command line 1 and the row count; without an
      upper bound, or with the upper bound 0, the lower bound and the row count; otherwise the two
      bounds. */
  predicate RangeOf(args: Option<StressArgs>, rows: int, low: int, high: int) {
    match args
    case None => low == 1 && high == rows
    case Some(StressArgs(lower, None, _)) => low == lower && high == rows
    case Some(StressArgs(lower, Some(upper), _)) =>
      low == lower && (upper == 0 ==> high == rows) && (upper != 0 ==> high == upper)
  }

  /** A certificate for every planned partition is a certificate for the whole range: equal row
      counts, and equal checksums whenever the source can compute one for the whole range. */
  lemma CertificateCoversRange(source: seq<Row>, target: seq<Row>, args: Option<StressArgs>, rows: int,
                              low: int, high: int)
    requires RangeOf(args, rows, low, high)
    requires Observe(source, target, PlannedPartitions(args, rows)).Some?
    requires Certified(Observe(source, target, PlannedPartitions(args, rows)).value)
    ensures var range := Bounds(low, high);
            && SameModulo64(AggregateOf(source, range), AggregateOf(target, range))
            && (SourceChecksum(source, range).Some? ==>
                  SourceChecksum(source, range) == Some(TargetChecksum(target, range)))
  {
    hide SourceChecksum, TargetChecksum, AggregateOf, Total, Observe;
    var range, partitions := Bounds(low, high), PlannedPartitions(args, rows);
    var o := Observe(source, target, partitions).value;
    ObservedAll(source, target, partitions);
    forall i | 0 <= i < |partitions|
      ensures SourceChecksum(source, partitions[i]) == Some(TargetChecksum(target, partitions[i]))
    {
      assert Agrees(o[i]);
    }
    TotalsAgree(source, target, partitions);
    AggregatesConserve(source, |partitions|, low, high);
    AggregatesConserve(target, |partitions|, low, high);
    RangeChecksums(source, target, range);
  }

  lemma RangeChecksums(source: seq<Row>, target: seq<Row>, range: Bounds)
    requires SameModulo64(AggregateOf(source, range), AggregateOf(target, range))
    ensures SourceChecksum(source, range).Some? ==>
              SourceChecksum(source, range) == Some(TargetChecksum(target, range))
  {
  }

  // The certificate never refuses a faithful copy.

  lemma {:induction false} AggregateAppend(front: seq<Row>, back: seq<Row>, b: Bounds)
    ensures AggregateOf(front + back, b) == Add(AggregateOf(front, b), AggregateOf(back, b))
  {
    if back == [] {
      assert front + back == front;
    } else {
      var init, row := back[..|back| - 1], back[|back| - 1];
      AggregateAppend(front, init, b);
      AggregateStep(front + init, row, b);
      AggregateStep(init, row, b);
      assert front + back == (front + init) + [row] && back == init + [row];
    }
  }

  /** The checksums depend on which rows there are, not on their order. */
  lemma {:induction false} AggregatePermutes(a: seq<Row>, c: seq<Row>, b: Bounds)
    requires multiset(a) == multiset(c)
    ensures AggregateOf(a, b) == AggregateOf(c, b)
  {
    if a == [] {
      assert |multiset(c)| == 0;
    } else {
      var k := TakeOut(a, c);
      var front, row, back := c[..k], c[k], c[k + 1..];
      AggregatePermutes(a[..|a| - 1], front + back, b);
      AggregateStep(a[..|a| - 1], row, b);
      assert a == a[..|a| - 1] + [row];
      AggregateAppend(front, back, b);
      AggregateStep(front, row, b);
      AggregateAppend(front + [row], back, b);
    }
  }

  /** Tables with the same rows, in whatever order, are certified as soon as the source can compute
      its checksums. */
  lemma FaithfulCopyCertified(source: seq<Row>, target: seq<Row>, args: Option<StressArgs>, rows: int)
    requires multiset(source) == multiset(target)
    requires Observe(source, target, PlannedPartitions(args, rows)).Some?
    ensures Certified(Observe(source, target, PlannedPartitions(args, rows)).value)
  {
    hide Observe, PlannedPartitions, SourceChecksum, TargetChecksum;
    var partitions := PlannedPartitions(args, rows);
    ObservedAll(source, target, partitions);
    forall i | 0 <= i < |partitions|
      ensures SourceChecksum(source, partitions[i]) == Some(TargetChecksum(target, partitions[i]))
    {
      CopyChecksum(source, target, partitions[i]);
    }
  }

  lemma CopyChecksum(source: seq<Row>, target: seq<Row>, b: Bounds)
    requires multiset(source) == multiset(target) && SourceChecksum(source, b).Some?
    ensures SourceChecksum(source, b) == Some(TargetChecksum(target, b))
  {
    AggregatePermutes(source, target, b);
    hide AggregateOf;
  }
}
