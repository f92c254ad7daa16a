/** The grouping half of `save_data_by_year` (all three scripts): a dict from
    year to the list of entries of that year. Writing one JSON file per year
    is not modelled. */
module YearBuckets {
  import opened Works

  /** The entries of year `y`, in input order. */
  function OfYear(s: seq<Entry>, y: int): seq<Entry>
  {
    if |s| == 0 then []
    else OfYear(s[..|s| - 1], y) + (if s[|s| - 1].year == y then [s[|s| - 1]] else [])
  }

  /** `year` occurs among the entries. */
  predicate HasYear(s: seq<Entry>, y: int) {
    exists k :: 0 <= k < |s| && s[k].year == y
  }

  /** The `data_by_year` loop of `save_data_by_year`. */
  method GroupByYear(preparedData: seq<Entry>) returns (dataByYear: map<int, seq<Entry>>)
    ensures forall y :: y in dataByYear <==> HasYear(preparedData, y)
    ensures forall y :: y in dataByYear ==> dataByYear[y] == OfYear(preparedData, y)
  {
    dataByYear := map[];
    var i := 0;
    while i < |preparedData|
      invariant 0 <= i <= |preparedData|
      invariant forall y :: y in dataByYear <==> HasYear(preparedData[..i], y)
      invariant forall y :: y in dataByYear ==> dataByYear[y] == OfYear(preparedData[..i], y)
    {
      var item := preparedData[i];
      var year := item.year;
      assert preparedData[..i + 1][..i] == preparedData[..i];
      assert preparedData[..i + 1][i] == item;
      if year !in dataByYear {
        dataByYear := dataByYear[year := []];
        OfYearAbsent(preparedData[..i], year);
      }
      dataByYear := dataByYear[year := dataByYear[year] + [item]];
      forall y | y in dataByYear
        ensures dataByYear[y] == OfYear(preparedData[..i + 1], y)
      {
        if y != year {
          assert OfYear(preparedData[..i + 1], y) == OfYear(preparedData[..i], y) + [];
        }
      }
      forall y | HasYear(preparedData[..i + 1], y)
        ensures y in dataByYear
      {
        var k :| 0 <= k < i + 1 && preparedData[..i + 1][k].year == y;
        if k < i {
          assert preparedData[..i][k].year == y;
        }
      }
      forall y | HasYear(preparedData[..i], y)
        ensures HasYear(preparedData[..i + 1], y)
      {
        var k :| 0 <= k < i && preparedData[..i][k].year == y;
        assert preparedData[..i + 1][k].year == y;
      }
      i := i + 1;
    }
    assert preparedData[..i] == preparedData;
  }

  lemma {:induction false} OfYearAbsent(s: seq<Entry>, y: int)
    requires !HasYear(s, y)
    ensures OfYear(s, y) == []
  {
    if |s| > 0 {
      var p := s[..|s| - 1];
      OfYearAbsent(p, y);
    }
  }

  /** A bucket holds exactly the entries of its year. */
  lemma {:induction false} OfYearMembership(s: seq<Entry>, y: int, e: Entry)
    ensures e in OfYear(s, y) <==> e in s && e.year == y
  {
    if |s| > 0 {
      var p := s[..|s| - 1];
      OfYearMembership(p, y, e);
      assert s == p + [s[|s| - 1]];
    }
  }

  /** Buckets keep input order: grouping two runs gives, per year, the two
      runs' buckets one after the other. */
  lemma {:induction false} OfYearAppend(a: seq<Entry>, b: seq<Entry>, y: int)
    ensures OfYear(a + b, y) == OfYear(a, y) + OfYear(b, y)
    decreases |b|
  {
    if |b| == 0 {
      assert a + b == a;
    } else {
      OfYearAppend(a, b[..|b| - 1], y);
      assert (a + b)[..|a + b| - 1] == a + b[..|b| - 1];
    }
  }

  /** Sum of the bucket sizes over a list of years. */
  function BucketSizes(s: seq<Entry>, years: seq<int>): nat
  {
    if |years| == 0 then 0 else |OfYear(s, years[0])| + BucketSizes(s, years[1..])
  }

  /** How often `y` occurs in `years`. */
  function Occurrences(years: seq<int>, y: int): nat
  {
    if |years| == 0 then 0 else (if years[0] == y then 1 else 0) + Occurrences(years[1..], y)
  }

  predicate Distinct(years: seq<int>) {
    forall i, j :: 0 <= i < j < |years| ==> years[i] != years[j]
  }

  lemma {:induction false} BucketSizesSnoc(s: seq<Entry>, e: Entry, years: seq<int>)
    ensures BucketSizes(s + [e], years) == BucketSizes(s, years) + Occurrences(years, e.year)
  {
    if |years| > 0 {
      BucketSizesSnoc(s, e, years[1..]);
      assert (s + [e])[..|s|] == s;
    }
  }

  lemma {:induction false} BucketSizesEmpty(years: seq<int>)
    ensures BucketSizes([], years) == 0
  {
    if |years| > 0 {
      BucketSizesEmpty(years[1..]);
    }
  }

  lemma {:induction false} OccursOnce(years: seq<int>, y: int)
    requires Distinct(years) && y in years
    ensures Occurrences(years, y) == 1
  {
    if years[0] == y {
      OccursNot(years[1..], y);
    } else {
      OccursOnce(years[1..], y);
    }
  }

  lemma {:induction false} OccursNot(years: seq<int>, y: int)
    requires y !in years
    ensures Occurrences(years, y) == 0
  {
    if |years| > 0 {
      OccursNot(years[1..], y);
    }
  }

  /** The buckets partition the input: for any list of distinct years that
      covers every entry's year, the bucket sizes add up to the input length. */
  lemma {:induction false} BucketsPartition(s: seq<Entry>, years: seq<int>)
    requires Distinct(years)
    requires forall k :: 0 <= k < |s| ==> s[k].year in years
    ensures BucketSizes(s, years) == |s|
  {
    if |s| == 0 {
      BucketSizesEmpty(years);
    } else {
      var p := s[..|s| - 1];
      var e := s[|s| - 1];
      BucketsPartition(p, years);
      assert s == p + [e];
      BucketSizesSnoc(p, e, years);
      OccursOnce(years, e.year);
    }
  }
}
