/** `sort_values(by='percent_GDP', ascending=False).head(n)`: a descending
    sort with absent values placed last, then the first `n` rows. pandas'
    default sort is not stable, so nothing here fixes the order of rows with
    equal `percent_GDP`; the insertion sort below is one admissible order. */
module Ranking {
  import opened Tables

  /** `a` may stand before `b` in a descending sort with absent values last. */
  predicate RanksAbove(a: Option<real>, b: Option<real>)
  {
    match a
    case None => b.None?
    case Some(x) => b.None? || x >= b.value
  }

  ghost predicate NonIncreasing(s: seq<Record>)
  {
    forall i, j :: 0 <= i < j < |s| ==> RanksAbove(s[i].percent, s[j].percent)
  }

  function InsertByPercent(x: Record, s: seq<Record>): (r: seq<Record>)
    requires NonIncreasing(s)
    ensures NonIncreasing(r)
    ensures multiset(r) == multiset(s) + multiset{x}
  {
    if s == [] then [x]
    else if RanksAbove(x.percent, s[0].percent) then [x] + s
    else
      var rest := InsertByPercent(x, s[1..]);
      assert s == [s[0]] + s[1..];
      assert forall y :: y in rest ==> y == x || y in s[1..] by {
        forall y | y in rest ensures y == x || y in s[1..] {
          assert y in multiset(rest);
        }
      }
      assert forall j :: 0 <= j < |rest| ==> RanksAbove(s[0].percent, rest[j].percent) by {
        forall j | 0 <= j < |rest| ensures RanksAbove(s[0].percent, rest[j].percent) {
          assert rest[j] in rest;
          if rest[j] != x {
            var k :| 0 <= k < |s[1..]| && s[1..][k] == rest[j];
            assert s[k + 1] == rest[j];
          }
        }
      }
      [s[0]] + rest
  }

  /** The rows of `s` in descending `percent_GDP` order, absent values last. */
  function SortByPercent(s: seq<Record>): (r: seq<Record>)
    ensures NonIncreasing(r)
    ensures multiset(r) == multiset(s)
  {
    if s == [] then []
    else
      assert s == [s[0]] + s[1..];
      InsertByPercent(s[0], SortByPercent(s[1..]))
  }

  function Min(a: int, b: int): int
  {
    if a <= b then a else b
  }

  /** In a descending sequence, every row after position `m` ranks no higher
      than any row before it. */
  lemma PrefixRanksAbove(sorted: seq<Record>, m: nat)
    requires NonIncreasing(sorted) && m <= |sorted|
    ensures multiset(sorted[..m]) <= multiset(sorted)
    ensures forall k, y :: 0 <= k < m && y in multiset(sorted) - multiset(sorted[..m]) ==>
      RanksAbove(sorted[k].percent, y.percent)
  {
    assert sorted == sorted[..m] + sorted[m..];
    assert multiset(sorted) - multiset(sorted[..m]) == multiset(sorted[m..]);
    forall k, y | 0 <= k < m && y in multiset(sorted[m..]) ensures RanksAbove(sorted[k].percent, y.percent) {
      assert y in sorted[m..];
      var j :| 0 <= j < |sorted[m..]| && sorted[m..][j] == y;
      assert sorted[m + j] == y;
    }
  }

  /** The first `n` rows of `s` sorted by `percent_GDP`: as many as `s` can
      give, in descending order, and no row left out ranks above a row kept. */
  function TopByPercent(s: seq<Record>, n: nat): (r: seq<Record>)
    ensures |r| == Min(n, |s|)
    ensures multiset(r) <= multiset(s)
    ensures NonIncreasing(r)
    ensures forall k, y :: 0 <= k < |r| && y in multiset(s) - multiset(r) ==> RanksAbove(r[k].percent, y.percent)
  {
    var sorted := SortByPercent(s);
    var m := Min(n, |s|);
    assert |sorted| == |multiset(sorted)| == |multiset(s)| == |s|;
    PrefixRanksAbove(sorted, m);
    sorted[..m]
  }
}
