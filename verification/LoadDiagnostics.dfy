/** The load report's percentile: the nearest rank in the sorted durations. */
module LoadDiagnostics {
  import opened Optional

  function Insert(x: real, sorted: seq<real>): seq<real> {
    if sorted == [] || x <= sorted[0] then [x] + sorted else [sorted[0]] + Insert(x, sorted[1..])
  }

  /** `Order()`. */
  function Sort(values: seq<real>): seq<real> {
    if values == [] then [] else Insert(values[0], Sort(values[1..]))
  }

  function Ceiling(x: real): int { -((-x).Floor) }

  function Share(percentile: real, n: nat): real { percentile * n as real }

  function Rank(share: real): nat { if Ceiling(share) < 1 then 0 else Ceiling(share) - 1 }

  /** `None` is the exception for a rank beyond the last value. */
  function Percentile(values: seq<real>, percentile: real): Option<real> {
    var sorted := Sort(values);
    if sorted == [] then Some(0.0)
    else
      var rank := Rank(Share(percentile, |sorted|));
      if rank < |sorted| then Some(sorted[rank]) else None
  }

  // ---- counting ----

  predicate Within(x: real, bound: real, strictly: bool) { x < bound || (x == bound && !strictly) }

  /** How many values are at most the bound, or strictly below it. */
  function Count(values: seq<real>, bound: real, strictly: bool): (n: nat)
    ensures n <= |values|
  {
    if values == [] then 0 else (if Within(values[0], bound, strictly) then 1 else 0) + Count(values[1..], bound, strictly)
  }

  predicate Ascending(s: seq<real>) { forall i, j :: 0 <= i <= j < |s| ==> s[i] <= s[j] }

  lemma {:induction false} InsertAscends(x: real, sorted: seq<real>)
    requires Ascending(sorted)
    ensures Ascending(Insert(x, sorted)) && |Insert(x, sorted)| == |sorted| + 1
    ensures forall y :: y in Insert(x, sorted) <==> y == x || y in sorted
  {
    if sorted == [] || x <= sorted[0] {
    } else {
      var rest := Insert(x, sorted[1..]);
      InsertAscends(x, sorted[1..]);
      assert forall y :: y in sorted <==> y == sorted[0] || y in sorted[1..];
      assert forall y :: y in [sorted[0]] + rest <==> y == sorted[0] || y in rest;
      FirstIsLeast(sorted);
      LeastFirst(sorted[0], rest);
    }
  }

  lemma FirstIsLeast(sorted: seq<real>)
    requires Ascending(sorted) && sorted != []
    ensures forall y :: y in sorted ==> sorted[0] <= y
  {
  }

  lemma LeastFirst(x: real, rest: seq<real>)
    requires Ascending(rest) && forall y :: y in rest ==> x <= y
    ensures Ascending([x] + rest)
  {
    assert forall j :: 0 <= j < |rest| ==> rest[j] in rest;
  }

  lemma {:induction false} InsertCounts(x: real, sorted: seq<real>, bound: real, strictly: bool)
    ensures Count(Insert(x, sorted), bound, strictly) == (if Within(x, bound, strictly) then 1 else 0) + Count(sorted, bound, strictly)
  {
    var after := Insert(x, sorted);
    if sorted == [] || x <= sorted[0] {
      assert after[1..] == sorted;
    } else {
      InsertCounts(x, sorted[1..], bound, strictly);
      assert after[1..] == Insert(x, sorted[1..]);
    }
  }

  /** Sorting keeps the values and how many lie below any bound. */
  lemma {:induction false} SortKeeps(values: seq<real>, bound: real, strictly: bool)
    ensures Ascending(Sort(values)) && |Sort(values)| == |values|
    ensures forall y :: y in Sort(values) <==> y in values
    ensures Count(Sort(values), bound, strictly) == Count(values, bound, strictly)
  {
    hide Insert;
    if values != [] {
      SortKeeps(values[1..], bound, strictly);
      InsertAscends(values[0], Sort(values[1..]));
      InsertCounts(values[0], Sort(values[1..]), bound, strictly);
      assert forall y :: y in values <==> y == values[0] || y in values[1..];
    }
  }

  /** In an ascending list the values up to an index are within it, and none from that index on is below it. */
  lemma {:induction false} CountAt(sorted: seq<real>, k: nat, bound: real)
    requires Ascending(sorted) && k < |sorted| && bound == sorted[k]
    ensures Count(sorted, bound, false) >= k + 1 && Count(sorted, bound, true) <= k
  {
    if k > 0 {
      CountAt(sorted[1..], k - 1, bound);
    } else {
      NoneBelow(sorted, bound);
    }
  }

  lemma {:induction false} NoneBelow(values: seq<real>, bound: real)
    requires forall i :: 0 <= i < |values| ==> values[i] >= bound
    ensures Count(values, bound, true) == 0
  {
    if values != [] { NoneBelow(values[1..], bound); }
  }

  lemma {:induction false} CountGrows(values: seq<real>, small: real, large: real)
    requires small < large
    ensures Count(values, small, false) <= Count(values, large, true)
  {
    if values != [] { CountGrows(values[1..], small, large); }
  }

  /** At least the given share of the values is at most `r`, and less than that share is below it. */
  predicate NearestRank(values: seq<real>, percentile: real, r: real) { AtShare(values, Share(percentile, |values|), r) }

  predicate AtShare(values: seq<real>, share: real, r: real) {
    r in values && Count(values, r, false) as real >= share && (Count(values, r, true) as real) < share
  }

  lemma FoundAt(values: seq<real>, k: nat, share: real)
    requires k < |Sort(values)| && k as real < share <= (k + 1) as real
    ensures AtShare(values, share, Sort(values)[k])
  {
    hide Sort, Count;
    var r := Sort(values)[k];
    SortKeeps(values, r, false);
    SortKeeps(values, r, true);
    CountAt(Sort(values), k, r);
    assert r in Sort(values);
  }

  lemma RankBounds(share: real, n: nat)
    requires n > 0
    ensures share <= 0.0 ==> Rank(share) == 0
    ensures share > 0.0 ==> Rank(share) as real < share <= (Rank(share) + 1) as real
    ensures Rank(share) < n <==> share <= n as real
  {
    CeilingBounds(share);
    if share <= n as real { assert (Ceiling(share) - 1) as real < n as real; }
    if share > n as real { assert Ceiling(share) as real > n as real; }
  }

  lemma CeilingBounds(x: real)
    ensures Ceiling(x) as real >= x > (Ceiling(x) - 1) as real
  {
  }

  lemma ShareBounds(percentile: real, n: nat)
    requires n > 0
    ensures percentile > 0.0 <==> Share(percentile, n) > 0.0
    ensures percentile <= 1.0 <==> Share(percentile, n) <= n as real
  {
    var m := n as real;
    if percentile > 1.0 { assert (percentile - 1.0) * m > 0.0; }
    if percentile <= 1.0 { assert (1.0 - percentile) * m >= 0.0; }
    if percentile <= 0.0 { assert (0.0 - percentile) * m >= 0.0; }
  }

  /** Main result: for a share above 0 the percentile is there exactly when the share is at most 1, and then it is the
      one value with the two counting bounds. */
  lemma PercentileExactly(values: seq<real>, percentile: real, r: real)
    requires values != [] && percentile > 0.0
    ensures Percentile(values, percentile).Some? <==> percentile <= 1.0
    ensures Percentile(values, percentile) == Some(r) <==> NearestRank(values, percentile, r)
  {
    hide Sort, AtShare, Rank, Share;
    var n, share := |values|, Share(percentile, |values|);
    SortKeeps(values, r, false);
    ShareBounds(percentile, n);
    RankBounds(share, n);
    if percentile <= 1.0 {
      var p := Sort(values)[Rank(share)];
      FoundAt(values, Rank(share), share);
      if AtShare(values, share, r) { OnlyOne(values, share, p, r); }
    } else {
      NoneBeyond(values, share, r);
    }
  }

  lemma NoneBeyond(values: seq<real>, share: real, r: real)
    requires share > |values| as real
    ensures !AtShare(values, share, r)
  {
    hide Count;
  }

  lemma OnlyOne(values: seq<real>, share: real, a: real, b: real)
    requires AtShare(values, share, a) && AtShare(values, share, b)
    ensures a == b
  {
    hide Count;
    if a < b { CountGrows(values, a, b); }
    if b < a { CountGrows(values, b, a); }
  }

  /** A share of 0 or less gives the least value, and no values give 0. */
  lemma LeastPercentile(values: seq<real>, percentile: real)
    requires percentile <= 0.0
    ensures values == [] ==> Percentile(values, percentile) == Some(0.0)
    ensures values != [] ==>
              var r := Percentile(values, percentile); r.Some? && r.value in values && forall v :: v in values ==> r.value <= v
  {
    hide Count, Rank, Sort, Share;
    SortKeeps(values, 0.0, false);
    if values != [] {
      ShareBounds(percentile, |values|);
      RankBounds(Share(percentile, |values|), |values|);
      var sorted := Sort(values);
      assert sorted[0] in sorted;
      forall v | v in values ensures sorted[0] <= v {
        var i :| 0 <= i < |sorted| && sorted[i] == v;
      }
    }
  }
}
