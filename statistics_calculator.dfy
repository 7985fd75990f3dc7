/** The statistics calculator: one pass over the records that keeps the
    earliest and latest date, the two sums and the smallest and largest
    value, then the median of the values taken from their ascending
    sort. */
module StatisticsCalculator {
  import opened Calendar
  import opened Models

  // ---------------------------------------------------------------------
  // The six accumulators, as left folds over the records

  /** The earliest date. */
  function MinDate(values: seq<ValueRecord>): int
    requires |values| > 0
  {
    if |values| == 1 then values[0].date
    else
      var d := values[|values| - 1].date;
      var m := MinDate(values[..|values| - 1]);
      if d < m then d else m
  }

  /** The latest date. */
  function MaxDate(values: seq<ValueRecord>): int
    requires |values| > 0
  {
    if |values| == 1 then values[0].date
    else
      var d := values[|values| - 1].date;
      var m := MaxDate(values[..|values| - 1]);
      if d > m then d else m
  }

  /** The smallest value. */
  function MinValue(values: seq<ValueRecord>): real
    requires |values| > 0
  {
    if |values| == 1 then values[0].value
    else
      var x := values[|values| - 1].value;
      var m := MinValue(values[..|values| - 1]);
      if x < m then x else m
  }

  /** The largest value. */
  function MaxValue(values: seq<ValueRecord>): real
    requires |values| > 0
  {
    if |values| == 1 then values[0].value
    else
      var x := values[|values| - 1].value;
      var m := MaxValue(values[..|values| - 1]);
      if x > m then x else m
  }

  /** The sum of the execution times. */
  function SumExecutionTime(values: seq<ValueRecord>): real {
    if values == [] then 0.0
    else SumExecutionTime(values[..|values| - 1]) + values[|values| - 1].executionTime
  }

  /** The sum of the values. */
  function SumValue(values: seq<ValueRecord>): real {
    if values == [] then 0.0
    else SumValue(values[..|values| - 1]) + values[|values| - 1].value
  }

  // ---------------------------------------------------------------------
  // The median

  /** The values of the records, in record order. */
  function Values(values: seq<ValueRecord>): (xs: seq<real>)
    ensures |xs| == |values|
    ensures forall k :: 0 <= k < |values| ==> xs[k] == values[k].value
  {
    seq(|values|, k requires 0 <= k < |values| => values[k].value)
  }

  predicate Ascending(xs: seq<real>) {
    forall i, j :: 0 <= i < j < |xs| ==> xs[i] <= xs[j]
  }

  /** `x` put before the first element of `s` that is not smaller. */
  function Insert(x: real, s: seq<real>): (r: seq<real>)
    ensures |r| == |s| + 1
  {
    if s == [] || x <= s[0] then [x] + s
    else [s[0]] + Insert(x, s[1..])
  }

  /** The ascending sort of `xs` (`OrderBy(v => v)`), by insertion. */
  function SortAscending(xs: seq<real>): (r: seq<real>)
    ensures |r| == |xs|
  {
    if xs == [] then []
    else Insert(xs[|xs| - 1], SortAscending(xs[..|xs| - 1]))
  }

  /** The middle of a sequence: its middle element when the count is odd,
      the mean of the two middle elements when it is even. */
  function Middle(sorted: seq<real>): real
    requires |sorted| > 0
  {
    var count := |sorted|;
    if count % 2 == 0 then (sorted[count / 2 - 1] + sorted[count / 2]) / 2.0
    else sorted[count / 2]
  }

  /** The median of the values of the records. */
  function Median(values: seq<ValueRecord>): real
    requires |values| > 0
  {
    Middle(SortAscending(Values(values)))
  }

  // ---------------------------------------------------------------------
  // The summary

  /** A duration in ticks, in seconds (`TimeSpan.TotalSeconds`). */
  function Seconds(ticks: int): real {
    ticks as real / TicksPerSecond as real
  }

  /** The mean of `count` numbers whose sum is `sum`: the number that,
      taken `count` times, makes up the sum. */
  function Mean(sum: real, count: nat): (m: real)
    requires count > 0
    ensures m * count as real == sum
  {
    sum / count as real
  }

  /** The summary of no records: the file name, every number zero and the
      earliest date at `DateTime`'s default, tick 0. */
  function EmptyResult(fileName: string): ResultRecord {
    ResultRecord(fileName, 0.0, 0, 0.0, 0.0, 0.0, 0.0, 0.0)
  }

  /** `CalculateStatistics` as a function of the records. */
  function Statistics(values: seq<ValueRecord>, fileName: string): (r: ResultRecord)
    ensures r.fileName == fileName
  {
    if |values| == 0 then EmptyResult(fileName)
    else
      ResultRecord(fileName, Seconds(MaxDate(values) - MinDate(values)), MinDate(values),
                   Mean(SumExecutionTime(values), |values|), Mean(SumValue(values), |values|),
                   Median(values), MaxValue(values), MinValue(values))
  }

  /** `CalculateStatistics`: the six accumulators in one pass, then the
      median of the sorted values. */
  method CalculateStatistics(values: seq<ValueRecord>, fileName: string) returns (r: ResultRecord)
    ensures r == Statistics(values, fileName)
  {
    if |values| == 0 {
      return EmptyResult(fileName);
    }
    var minDate := values[0].date;
    var maxDate := values[0].date;
    var sumExecutionTime := 0.0;
    var sumValue := 0.0;
    var maxValue := values[0].value;
    var minValue := values[0].value;
    for i := 0 to |values|
      invariant i == 0 ==> minDate == maxDate == values[0].date
      invariant i == 0 ==> minValue == maxValue == values[0].value
      invariant i > 0 ==> minDate == MinDate(values[..i]) && maxDate == MaxDate(values[..i])
      invariant i > 0 ==> minValue == MinValue(values[..i]) && maxValue == MaxValue(values[..i])
      invariant sumExecutionTime == SumExecutionTime(values[..i])
      invariant sumValue == SumValue(values[..i])
    {
      SumStep(values, i);
      ExtremesStep(values, i);
      var record := values[i];
      minDate := if record.date < minDate then record.date else minDate;
      maxDate := if record.date > maxDate then record.date else maxDate;
      sumExecutionTime := sumExecutionTime + record.executionTime;
      sumValue := sumValue + record.value;
      maxValue := if record.value > maxValue then record.value else maxValue;
      minValue := if record.value < minValue then record.value else minValue;
    }
    assert values[..|values|] == values;

    var sortedValues := SortAscending(Values(values));
    var count := |sortedValues|;
    var median: real;
    if count % 2 == 0 {
      median := (sortedValues[count / 2 - 1] + sortedValues[count / 2]) / 2.0;
    } else {
      median := sortedValues[count / 2];
    }
    r := ResultRecord(fileName, Seconds(maxDate - minDate), minDate,
                      sumExecutionTime / |values| as real, sumValue / |values| as real,
                      median, maxValue, minValue);
  }

  /** One more record adds its execution time and value to the sums. */
  lemma SumStep(values: seq<ValueRecord>, i: int)
    requires 0 <= i < |values|
    ensures SumExecutionTime(values[..i + 1]) == SumExecutionTime(values[..i]) + values[i].executionTime
    ensures SumValue(values[..i + 1]) == SumValue(values[..i]) + values[i].value
  {
    assert values[..i + 1][..i] == values[..i];
  }

  /** One more record updates the extremes as the loop body does; the
      first record is its own extremes. */
  lemma ExtremesStep(values: seq<ValueRecord>, i: int)
    requires 0 <= i < |values|
    ensures i == 0 ==> MinDate(values[..1]) == MaxDate(values[..1]) == values[0].date
    ensures i == 0 ==> MinValue(values[..1]) == MaxValue(values[..1]) == values[0].value
    ensures 0 < i ==> MinDate(values[..i + 1]) == if values[i].date < MinDate(values[..i])
                                                  then values[i].date else MinDate(values[..i])
    ensures 0 < i ==> MaxDate(values[..i + 1]) == if values[i].date > MaxDate(values[..i])
                                                  then values[i].date else MaxDate(values[..i])
    ensures 0 < i ==> MinValue(values[..i + 1]) == if values[i].value < MinValue(values[..i])
                                                   then values[i].value else MinValue(values[..i])
    ensures 0 < i ==> MaxValue(values[..i + 1]) == if values[i].value > MaxValue(values[..i])
                                                   then values[i].value else MaxValue(values[..i])
  {
    assert values[..i + 1][..i] == values[..i];
  }

  // ---------------------------------------------------------------------
  // Properties

  /** Inserting into an ascending sequence keeps it ascending; the new
      first element is `x` or the old first one. */
  lemma {:induction false} InsertKeepsOrder(x: real, s: seq<real>)
    requires Ascending(s)
    ensures Ascending(Insert(x, s))
    ensures Insert(x, s)[0] == x || (|s| > 0 && Insert(x, s)[0] == s[0])
  {
    if s != [] && x > s[0] {
      InsertKeepsOrder(x, s[1..]);
      var rest := Insert(x, s[1..]);
      assert s[0] <= rest[0];
      assert forall k :: 0 <= k < |rest| ==> s[0] <= rest[k];
    }
  }

  /** Inserting adds exactly `x`. */
  lemma {:induction false} InsertAddsOne(x: real, s: seq<real>)
    ensures multiset(Insert(x, s)) == multiset(s) + multiset{x}
  {
    if s != [] && x > s[0] {
      InsertAddsOne(x, s[1..]);
      assert s == [s[0]] + s[1..];
    }
  }

  /** The sort is an ascending rearrangement of its input. */
  lemma {:induction false} SortIsAscendingPermutation(xs: seq<real>)
    ensures Ascending(SortAscending(xs))
    ensures multiset(SortAscending(xs)) == multiset(xs)
  {
    if xs != [] {
      SortIsAscendingPermutation(xs[..|xs| - 1]);
      InsertKeepsOrder(xs[|xs| - 1], SortAscending(xs[..|xs| - 1]));
      InsertAddsOne(xs[|xs| - 1], SortAscending(xs[..|xs| - 1]));
      assert xs == xs[..|xs| - 1] + [xs[|xs| - 1]];
    }
  }

  /** The middle of an ascending sequence lies between its two middle
      elements (one and the same when the count is odd): the lower half
      lies at or below it and the upper half at or above it. */
  lemma MiddleSplitsHalves(sorted: seq<real>)
    requires |sorted| > 0 && Ascending(sorted)
    ensures sorted[(|sorted| - 1) / 2] <= Middle(sorted) <= sorted[|sorted| / 2]
    ensures forall k :: 0 <= k < |sorted| / 2 ==> sorted[k] <= Middle(sorted)
    ensures forall k :: (|sorted| + 1) / 2 <= k < |sorted| ==> Middle(sorted) <= sorted[k]
  {
    var n := |sorted|;
    assert sorted[(n - 1) / 2] <= sorted[n / 2];
  }

  /** The earliest and the latest date are dates of records, and every
      record's date lies between them. */
  lemma {:induction false} DateExtremes(values: seq<ValueRecord>)
    requires |values| > 0
    ensures exists k :: 0 <= k < |values| && values[k].date == MinDate(values)
    ensures exists k :: 0 <= k < |values| && values[k].date == MaxDate(values)
    ensures forall k :: 0 <= k < |values| ==> MinDate(values) <= values[k].date <= MaxDate(values)
  {
    if |values| == 1 {
      assert values[0].date == MinDate(values) == MaxDate(values);
    } else {
      var init := values[..|values| - 1];
      DateExtremes(init);
      assert forall k :: 0 <= k < |init| ==> init[k] == values[k];
      var last := |values| - 1;
      if values[last].date < MinDate(init) {
        assert values[last].date == MinDate(values);
      } else {
        var k :| 0 <= k < |init| && init[k].date == MinDate(init);
        assert values[k].date == MinDate(values);
      }
      if values[last].date > MaxDate(init) {
        assert values[last].date == MaxDate(values);
      } else {
        var k :| 0 <= k < |init| && init[k].date == MaxDate(init);
        assert values[k].date == MaxDate(values);
      }
    }
  }

  /** The smallest and the largest value are values of records, and every
      record's value lies between them. */
  lemma {:induction false} ValueExtremes(values: seq<ValueRecord>)
    requires |values| > 0
    ensures exists k :: 0 <= k < |values| && values[k].value == MinValue(values)
    ensures exists k :: 0 <= k < |values| && values[k].value == MaxValue(values)
    ensures forall k :: 0 <= k < |values| ==> MinValue(values) <= values[k].value <= MaxValue(values)
  {
    if |values| == 1 {
      assert values[0].value == MinValue(values) == MaxValue(values);
    } else {
      var init := values[..|values| - 1];
      ValueExtremes(init);
      assert forall k :: 0 <= k < |init| ==> init[k] == values[k];
      var last := |values| - 1;
      if values[last].value < MinValue(init) {
        assert values[last].value == MinValue(values);
      } else {
        var k :| 0 <= k < |init| && init[k].value == MinValue(init);
        assert values[k].value == MinValue(values);
      }
      if values[last].value > MaxValue(init) {
        assert values[last].value == MaxValue(values);
      } else {
        var k :| 0 <= k < |init| && init[k].value == MaxValue(init);
        assert values[k].value == MaxValue(values);
      }
    }
  }

  /** The sort is determined by the values alone: two ascending
      rearrangements of the same values are equal, so the median does not
      depend on how the values were sorted. */
  lemma {:induction false} AscendingPermutationUnique(a: seq<real>, b: seq<real>)
    requires Ascending(a) && Ascending(b)
    requires multiset(a) == multiset(b)
    ensures a == b
    decreases |a|
  {
    assert |b| == |a| by { assert |multiset(a)| == |multiset(b)|; }
    if a != [] {
      assert a == [a[0]] + a[1..];
      assert b == [b[0]] + b[1..];
      assert a[0] in multiset(b);
      var j :| 0 <= j < |b| && b[j] == a[0];
      assert b[0] <= a[0];
      assert b[0] in multiset(a);
      var i :| 0 <= i < |a| && a[i] == b[0];
      assert a[0] <= b[0];
      assert multiset(a[1..]) == multiset(a) - multiset{a[0]};
      assert multiset(b[1..]) == multiset(b) - multiset{b[0]};
      AscendingPermutationUnique(a[1..], b[1..]);
    }
  }

  /** Every sorted value is the value of some record, and so lies between
      the smallest and the largest value. */
  lemma SortedValuesBetweenExtremes(values: seq<ValueRecord>, i: int)
    requires 0 <= i < |values|
    ensures MinValue(values) <= SortAscending(Values(values))[i] <= MaxValue(values)
  {
    var xs := Values(values);
    var s := SortAscending(xs);
    SortIsAscendingPermutation(xs);
    assert s[i] in multiset(xs);
    var k :| 0 <= k < |xs| && xs[k] == s[i];
    ValueExtremes(values);
    assert MinValue(values) <= values[k].value <= MaxValue(values);
  }

  /** The median lies between the smallest and the largest value. */
  lemma MedianBetweenExtremes(values: seq<ValueRecord>)
    requires |values| > 0
    ensures MinValue(values) <= Median(values) <= MaxValue(values)
  {
    SortedValuesBetweenExtremes(values, (|values| - 1) / 2);
    SortedValuesBetweenExtremes(values, |values| / 2);
    SortIsAscendingPermutation(Values(values));
    MiddleSplitsHalves(SortAscending(Values(values)));
  }

  /** The earliest date of a non-empty list is a record's date and no
      record is earlier; the time span is never negative, and it is zero
      exactly when all records carry the same date. */
  lemma EarliestDateAndSpan(values: seq<ValueRecord>, fileName: string)
    requires |values| > 0
    ensures exists k :: 0 <= k < |values| && values[k].date == Statistics(values, fileName).minDate
    ensures forall k :: 0 <= k < |values| ==> Statistics(values, fileName).minDate <= values[k].date
    ensures exists k :: 0 <= k < |values| &&
              (forall j :: 0 <= j < |values| ==> values[j].date <= values[k].date) &&
              Statistics(values, fileName).timeDelta * 10_000_000.0 ==
                (values[k].date - Statistics(values, fileName).minDate) as real
    ensures Statistics(values, fileName).timeDelta >= 0.0
    ensures Statistics(values, fileName).timeDelta == 0.0 <==>
              forall k :: 0 <= k < |values| ==> values[k].date == values[0].date
  {
    DateExtremes(values);
    assert Statistics(values, fileName).minDate == MinDate(values);
    assert Statistics(values, fileName).timeDelta == Seconds(MaxDate(values) - MinDate(values));
    assert MinDate(values) <= values[0].date <= MaxDate(values);
    var latest :| 0 <= latest < |values| && values[latest].date == MaxDate(values);
    assert Statistics(values, fileName).timeDelta * 10_000_000.0 ==
             (values[latest].date - MinDate(values)) as real;
    if forall k :: 0 <= k < |values| ==> values[k].date == values[0].date {
      var i :| 0 <= i < |values| && values[i].date == MinDate(values);
      var j :| 0 <= j < |values| && values[j].date == MaxDate(values);
    }
  }

  /** The smallest and largest value of a non-empty list are records'
      values and bound every value, and the median lies between them. */
  lemma ValueStatistics(values: seq<ValueRecord>, fileName: string)
    requires |values| > 0
    ensures exists k :: 0 <= k < |values| && values[k].value == Statistics(values, fileName).minValue
    ensures exists k :: 0 <= k < |values| && values[k].value == Statistics(values, fileName).maxValue
    ensures forall k :: 0 <= k < |values| ==>
              Statistics(values, fileName).minValue <= values[k].value <= Statistics(values, fileName).maxValue
    ensures Statistics(values, fileName).minValue <= Statistics(values, fileName).medianValue
            <= Statistics(values, fileName).maxValue
  {
    ValueExtremes(values);
    MedianBetweenExtremes(values);
  }

  /** No records: the file name and zeros. */
  lemma StatisticsOfNothing(fileName: string)
    ensures Statistics([], fileName) == ResultRecord(fileName, 0.0, 0, 0.0, 0.0, 0.0, 0.0, 0.0)
  {
  }

  /** One record: every value statistic is its value, the average time is
      its execution time, the earliest date is its date and the time span
      is zero. */
  lemma StatisticsOfOne(record: ValueRecord, fileName: string)
    ensures Statistics([record], fileName).minValue == record.value
    ensures Statistics([record], fileName).maxValue == record.value
    ensures Statistics([record], fileName).avgValue == record.value
    ensures Statistics([record], fileName).medianValue == record.value
    ensures Statistics([record], fileName).avgExecutionTime == record.executionTime
    ensures Statistics([record], fileName).timeDelta == 0.0
    ensures Statistics([record], fileName).minDate == record.date
  {
    var values := [record];
    assert values[..0] == [];
    assert SumValue(values) == record.value;
    assert SumExecutionTime(values) == record.executionTime;
    assert Values(values) == [record.value];
    assert [record.value][..0] == [];
    assert SortAscending([record.value]) == [record.value];
  }

  /** Two records a hundred seconds apart: the span is 100 seconds and the
      earliest date is the first record's. */
  lemma TimeSpanOfTwo(a: ValueRecord, b: ValueRecord, fileName: string)
    requires b.date == a.date + 100 * TicksPerSecond
    ensures Statistics([a, b], fileName).timeDelta == 100.0
    ensures Statistics([a, b], fileName).minDate == a.date
  {
    var values := [a, b];
    assert values[..1] == [a];
    assert MaxDate(values) - MinDate(values) == 100 * TicksPerSecond;
  }

  /** Three values whose last lies between the first two sort to the
      first, the last, the second. */
  lemma SortThree(x: real, y: real, z: real)
    requires x <= z <= y
    ensures SortAscending([x, y, z]) == [x, z, y]
  {
    assert [x, y, z][..2] == [x, y] && [x, y][..1] == [x] && [x][..0] == [];
    assert SortAscending([x]) == [x];
    assert SortAscending([x, y]) == Insert(y, [x]) == [x, y];
    assert [x, y][1..] == [y];
    assert Insert(z, [y]) == [z, y];
  }

  /** Four values in the order smallest, largest, second, third sort to
      smallest, second, third, largest. */
  lemma SortFour(w: real, x: real, y: real, z: real)
    requires w <= y <= z <= x
    ensures SortAscending([w, x, y, z]) == [w, y, z, x]
  {
    assert [w, x, y, z][..3] == [w, x, y];
    SortThree(w, x, y);
    assert [w, y, x][1..] == [y, x] && [y, x][1..] == [x];
    assert Insert(z, [x]) == [z, x];
    assert Insert(z, [y, x]) == [y, z, x];
  }

  /** The values 10, 30, 20: median 20, largest 30, smallest 10, mean 20. */
  lemma OddCountMedian(a: ValueRecord, b: ValueRecord, c: ValueRecord, fileName: string)
    requires a.value == 10.0 && b.value == 30.0 && c.value == 20.0
    ensures Statistics([a, b, c], fileName).medianValue == 20.0
    ensures Statistics([a, b, c], fileName).maxValue == 30.0
    ensures Statistics([a, b, c], fileName).minValue == 10.0
    ensures Statistics([a, b, c], fileName).avgValue == 20.0
  {
    var values := [a, b, c];
    assert values[..2] == [a, b] && [a, b][..1] == [a] && [a][..0] == [];
    assert MinValue([a, b]) == 10.0 && MaxValue([a, b]) == 30.0;
    assert SumValue([a]) == 10.0 && SumValue([a, b]) == 40.0;
    assert MinValue(values) == 10.0 && MaxValue(values) == 30.0 && SumValue(values) == 60.0;
    assert Values(values) == [a.value, b.value, c.value];
    SortThree(a.value, b.value, c.value);
  }

  /** The values 10, 40, 20, 30: median 25 and mean 25. */
  lemma EvenCountMedian(a: ValueRecord, b: ValueRecord, c: ValueRecord, d: ValueRecord,
                        fileName: string)
    requires a.value == 10.0 && b.value == 40.0 && c.value == 20.0 && d.value == 30.0
    ensures Statistics([a, b, c, d], fileName).medianValue == 25.0
    ensures Statistics([a, b, c, d], fileName).avgValue == 25.0
  {
    var values := [a, b, c, d];
    assert values[..3] == [a, b, c] && [a, b, c][..2] == [a, b] && [a, b][..1] == [a] && [a][..0] == [];
    assert SumValue([a]) == 10.0 && SumValue([a, b]) == 50.0 && SumValue([a, b, c]) == 70.0;
    assert SumValue(values) == 100.0;
    assert Values(values) == [a.value, b.value, c.value, d.value];
    SortFour(a.value, b.value, c.value, d.value);
  }
}
