/** The per-query selection of NoveltyIndicatorV4.py: sort each query's works
    by `cited_by_count` (missing counts as 0) in decreasing order, keep the
    first 60, tag them with the query and concatenate across queries. */
module TopCited {
  import opened Wrappers
  import opened Works

  /** The slice `[:60]`. */
  const TopCount: nat := 60

  /** The sort key `x.get('cited_by_count', 0)`. */
  function CitedBy(r: RawWork): int {
    r.citedByCount.GetOr(0)
  }

  /** Non-increasing in `key`. */
  predicate SortedDesc<T>(key: T -> int, s: seq<T>) {
    forall i, j :: 0 <= i < j < |s| ==> key(s[j]) <= key(s[i])
  }

  /** Insert `x` before the first element whose key is not above its own. */
  function InsertDesc<T>(key: T -> int, x: T, t: seq<T>): (r: seq<T>)
    ensures multiset(r) == multiset(t) + multiset{x}
    ensures forall y :: y in r ==> y == x || y in t
    ensures SortedDesc(key, t) ==> SortedDesc(key, r)
  {
    if |t| == 0 || key(t[0]) <= key(x) then [x] + t
    else
      var rest := InsertDesc(key, x, t[1..]);
      InsertDescStep(key, x, t, rest);
      [t[0]] + rest
  }

  /** The step of `InsertDesc` that keeps the head in front of the insertion
      into the tail. */
  lemma InsertDescStep<T>(key: T -> int, x: T, t: seq<T>, rest: seq<T>)
    requires |t| > 0 && key(x) < key(t[0])
    requires multiset(rest) == multiset(t[1..]) + multiset{x}
    requires forall y :: y in rest ==> y == x || y in t[1..]
    requires SortedDesc(key, t[1..]) ==> SortedDesc(key, rest)
    ensures multiset([t[0]] + rest) == multiset(t) + multiset{x}
    ensures forall y :: y in [t[0]] + rest ==> y == x || y in t
    ensures SortedDesc(key, t) ==> SortedDesc(key, [t[0]] + rest)
  {
    assert t == [t[0]] + t[1..];
    if SortedDesc(key, t) {
      assert SortedDesc(key, t[1..]);
      forall j | 0 <= j < |rest| ensures key(rest[j]) <= key(t[0]) {
        assert rest[j] in rest;
        if rest[j] != x {
          var i :| 0 <= i < |t[1..]| && t[1..][i] == rest[j];
          assert t[i + 1] == rest[j];
        }
      }
    }
  }

  /** `sorted(s, key=key, reverse=True)`: a stable sort into non-increasing
      keys. */
  function SortDesc<T>(key: T -> int, s: seq<T>): (r: seq<T>)
    ensures multiset(r) == multiset(s)
    ensures |r| == |s|
    ensures SortedDesc(key, r)
  {
    if |s| == 0 then []
    else
      var r := InsertDesc(key, s[0], SortDesc(key, s[1..]));
      assert s == [s[0]] + s[1..];
      assert |r| == |multiset(r)|;
      r
  }

  /** The elements whose key is `c`, in order. */
  function WithKey<T>(key: T -> int, s: seq<T>, c: int): seq<T>
  {
    if |s| == 0 then [] else (if key(s[0]) == c then [s[0]] else []) + WithKey(key, s[1..], c)
  }

  lemma {:induction false} InsertWithKey<T>(key: T -> int, x: T, t: seq<T>, c: int)
    ensures WithKey(key, InsertDesc(key, x, t), c) == (if key(x) == c then [x] else []) + WithKey(key, t, c)
  {
    if |t| == 0 || key(t[0]) <= key(x) {
      assert ([x] + t)[1..] == t;
    } else {
      var rest := InsertDesc(key, x, t[1..]);
      assert ([t[0]] + rest)[1..] == rest;
      InsertWithKey(key, x, t[1..], c);
      var X := if key(x) == c then [x] else [];
      var H := if key(t[0]) == c then [t[0]] else [];
      var W := WithKey(key, t[1..], c);
      assert WithKey(key, [t[0]] + rest, c) == H + (X + W);
      assert WithKey(key, t, c) == H + W;
      // the two keys differ, so at most one of `x` and `t[0]` is kept
      SwapEmpty(H, X, W);
    }
  }

  lemma SwapEmpty<T>(h: seq<T>, x: seq<T>, w: seq<T>)
    requires h == [] || x == []
    ensures h + (x + w) == x + (h + w)
  {
    if h == [] {
      assert h + (x + w) == x + w;
    } else {
      assert x + (h + w) == h + w;
    }
  }

  /** Python's sort is stable, and so is this one: among elements with equal
      keys the input order is kept. Together with the `ensures` of `SortDesc`
      this fixes the result uniquely. */
  lemma {:induction false} SortStable<T>(key: T -> int, s: seq<T>, c: int)
    ensures WithKey(key, SortDesc(key, s), c) == WithKey(key, s, c)
  {
    if |s| > 0 {
      SortStable(key, s[1..], c);
      InsertWithKey(key, s[0], SortDesc(key, s[1..]), c);
    }
  }

  /** `sorted(data_sdg, key=lambda x: x.get('cited_by_count', 0), reverse=True)`. */
  function SortByCitationsDesc(s: seq<RawWork>): seq<RawWork> {
    SortDesc(CitedBy, s)
  }

  /** The first `n` elements of the descending sort. */
  function TopDesc<T>(key: T -> int, s: seq<T>, n: nat): seq<T>
  {
    var sorted := SortDesc(key, s);
    sorted[..Min(n, |sorted|)]
  }

  /** The kept list: at most `n` elements, all taken from the input, in
      non-increasing key order. */
  lemma TopDescProperties<T>(key: T -> int, s: seq<T>, n: nat)
    ensures |TopDesc(key, s, n)| == Min(n, |s|)
    ensures SortedDesc(key, TopDesc(key, s, n))
    ensures multiset(TopDesc(key, s, n)) <= multiset(s)
  {
    var sorted := SortDesc(key, s);
    var m := Min(n, |sorted|);
    assert sorted == sorted[..m] + sorted[m..];
    assert multiset(sorted) == multiset(sorted[..m]) + multiset(sorted[m..]);
  }

  /** No element the slice drops has a higher key than one it keeps. */
  lemma TopDescDropsLowest<T>(key: T -> int, s: seq<T>, n: nat, y: T, x: T)
    requires y in multiset(s) - multiset(TopDesc(key, s, n))
    requires x in TopDesc(key, s, n)
    ensures key(y) <= key(x)
  {
    var sorted := SortDesc(key, s);
    var m := Min(n, |sorted|);
    SliceRemainder(sorted, m);
    SortedSliceDrops(key, sorted, m, y, x);
  }

  /** In a sorted sequence, nothing after position `m` has a higher key than
      anything before it. */
  lemma SortedSliceDrops<T>(key: T -> int, sorted: seq<T>, m: nat, y: T, x: T)
    requires SortedDesc(key, sorted) && m <= |sorted|
    requires y in multiset(sorted[m..]) && x in sorted[..m]
    ensures key(y) <= key(x)
  {
    var top, dropped := sorted[..m], sorted[m..];
    var j :| 0 <= j < |dropped| && dropped[j] == y;
    var i :| 0 <= i < |top| && top[i] == x;
    assert sorted[m + j] == y && sorted[i] == x;
  }

  /** What a slice leaves out is the rest of the sequence. */
  lemma SliceRemainder<T>(s: seq<T>, m: nat)
    requires m <= |s|
    ensures multiset(s) - multiset(s[..m]) == multiset(s[m..])
  {
    assert s == s[..m] + s[m..];
  }

  /** `data_sdg_sorted[:60]`. */
  function TopCitedOf(s: seq<RawWork>): seq<RawWork>
  {
    TopDesc(CitedBy, s, TopCount)
  }

  /** `item['sustainable_development_goals'] = [q]; item['sdg_query_source'] = q`. */
  function Tag(item: RawWork, q: string): RawWork {
    item.(sustainableDevelopmentGoals := Some([q]), sdgQuerySource := Some(q))
  }

  /** A work carrying the tag of one of `queries`. */
  predicate TaggedBy(item: RawWork, queries: seq<string>) {
    && item.sdgQuerySource.Some?
    && item.sdgQuerySource.value in queries
    && item.sustainableDevelopmentGoals == Some([item.sdgQuerySource.value])
  }

  /** Every work of the list tagged with `q`, all other keys unchanged. */
  function TagAll(s: seq<RawWork>, q: string): (r: seq<RawWork>)
    ensures |r| == |s|
    ensures forall k :: 0 <= k < |s| ==> r[k] == Tag(s[k], q)
  {
    if |s| == 0 then [] else [Tag(s[0], q)] + TagAll(s[1..], q)
  }

  /** What one query contributes: its 60 most cited works, tagged. */
  function QueryBlock(q: string, fetch: string -> seq<RawWork>): seq<RawWork>
  {
    TagAll(TopCitedOf(fetch(q)), q)
  }

  /** `all_sdg_data` after the loop over `sdg_queries`. */
  function AllSdgDataSpec(sdgQueries: seq<string>, fetch: string -> seq<RawWork>): seq<RawWork>
  {
    if |sdgQueries| == 0 then []
    else
      var q := sdgQueries[|sdgQueries| - 1];
      AllSdgDataSpec(sdgQueries[..|sdgQueries| - 1], fetch) + QueryBlock(q, fetch)
  }

  /** The inner loop over `data_sdg_top60`, setting both SDG keys of every
      kept work to the query. */
  method TagEach(items: seq<RawWork>, q: string) returns (tagged: seq<RawWork>)
    ensures tagged == TagAll(items, q)
  {
    tagged := items;
    var k := 0;
    while k < |tagged|
      invariant 0 <= k <= |tagged| == |items|
      invariant forall m :: 0 <= m < k ==> tagged[m] == Tag(items[m], q)
      invariant forall m :: k <= m < |items| ==> tagged[m] == items[m]
    {
      tagged := tagged[k := Tag(tagged[k], q)];
      k := k + 1;
    }
  }

  /** The loop over `sdg_queries`: `fetch` stands for `get_openalex_data`. Each
      kept work is updated in place, then the kept list is appended. */
  method CollectTopCited(sdgQueries: seq<string>, fetch: string -> seq<RawWork>) returns (allSdgData: seq<RawWork>)
    ensures allSdgData == AllSdgDataSpec(sdgQueries, fetch)
  {
    allSdgData := [];
    var n := 0;
    while n < |sdgQueries|
      invariant 0 <= n <= |sdgQueries|
      invariant allSdgData == AllSdgDataSpec(sdgQueries[..n], fetch)
    {
      var sdgQuery := sdgQueries[n];
      var dataSdg := fetch(sdgQuery);
      var dataSdgSorted := SortByCitationsDesc(dataSdg);
      var dataSdgTop60 := dataSdgSorted[..Min(TopCount, |dataSdgSorted|)];
      dataSdgTop60 := TagEach(dataSdgTop60, sdgQuery);
      assert dataSdgTop60 == QueryBlock(sdgQuery, fetch);
      assert sdgQueries[..n + 1][..n] == sdgQueries[..n];
      allSdgData := allSdgData + dataSdgTop60;
      n := n + 1;
    }
    assert sdgQueries[..n] == sdgQueries;
  }

  /** What `all_sdg_data` holds: at most 60 works per query, each tagged with
      one of the queries. */
  lemma {:induction false} AllSdgDataFacts(sdgQueries: seq<string>, fetch: string -> seq<RawWork>)
    ensures |AllSdgDataSpec(sdgQueries, fetch)| <= TopCount * |sdgQueries|
    ensures forall k :: 0 <= k < |AllSdgDataSpec(sdgQueries, fetch)| ==>
              TaggedBy(AllSdgDataSpec(sdgQueries, fetch)[k], sdgQueries)
  {
    if |sdgQueries| > 0 {
      var p := sdgQueries[..|sdgQueries| - 1];
      var q := sdgQueries[|sdgQueries| - 1];
      AllSdgDataFacts(p, fetch);
      TopDescProperties(CitedBy, fetch(q), TopCount);
      var before := AllSdgDataSpec(p, fetch);
      var block := QueryBlock(q, fetch);
      forall k | 0 <= k < |before + block|
        ensures TaggedBy((before + block)[k], sdgQueries)
      {
        if k < |before| {
          var src := before[k].sdgQuerySource.value;
          assert src in p;
          var i :| 0 <= i < |p| && p[i] == src;
          assert sdgQueries[i] == src;
        } else {
          assert sdgQueries[|sdgQueries| - 1] == q;
        }
      }
    }
  }
}
