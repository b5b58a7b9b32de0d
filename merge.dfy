/** The pandas right outer join `left.merge(right, how='right')`, written once
    for the two joins of the wrangling step. */
module Merge {

  /** The rows `pair(l, r)` for the rows `l` of `left` that `key` matches with
      `r`, in `left`'s order. */
  function Partners<L(==,!new), R, O(==,!new)>(left: seq<L>, r: R, key: (L, R) -> bool, pair: (L, R) -> O): (out: seq<O>)
    ensures forall x :: x in out <==> exists l :: l in left && key(l, r) && x == pair(l, r)
  {
    if left == [] then []
    else
      var rest := Partners(left[1..], r, key, pair);
      assert forall l :: l in left[1..] ==> l in left;
      assert forall l :: l in left ==> l == left[0] || l in left[1..];
      (if key(left[0], r) then [pair(left[0], r)] else []) + rest
  }

  /** No row of `left` matches `r`. */
  ghost predicate Unpartnered<L(!new), R>(left: seq<L>, r: R, key: (L, R) -> bool)
  {
    forall l :: l in left ==> !key(l, r)
  }

  /** What one right row contributes: one row per matching left row, or a
      single row with the left columns absent when none matches. */
  function Block<L(==,!new), R, O(==,!new)>(left: seq<L>, r: R, key: (L, R) -> bool, pair: (L, R) -> O, alone: R -> O): (out: seq<O>)
    ensures forall x :: x in out <==>
      (exists l :: l in left && key(l, r) && x == pair(l, r)) || (Unpartnered(left, r, key) && x == alone(r))
    ensures out == if Unpartnered(left, r, key) then [alone(r)] else Partners(left, r, key, pair)
  {
    var p := Partners(left, r, key, pair);
    assert p == [] <==> Unpartnered(left, r, key) by {
      if p != [] { assert p[0] in p; }
      if !Unpartnered(left, r, key) {
        var l :| l in left && key(l, r);
        assert pair(l, r) in p;
      }
    }
    if p == [] then [alone(r)] else p
  }

  /** Right outer join: each row of `right`, in order, is replaced by its block:
      one row per matching `left` row, in `left`'s order, or a single row with
      the left columns absent when no `left` row matches. Left rows with no
      partner in `right` are dropped. */
  function RightJoin<L(==,!new), R(==,!new), O(==,!new)>(left: seq<L>, right: seq<R>, key: (L, R) -> bool, pair: (L, R) -> O, alone: R -> O): (out: seq<O>)
    ensures forall x :: x in out <==>
      (exists r, l :: r in right && l in left && key(l, r) && x == pair(l, r))
      || (exists r :: r in right && Unpartnered(left, r, key) && x == alone(r))
  {
    if right == [] then []
    else
      assert forall r :: r in right <==> r == right[0] || r in right[1..];
      Block(left, right[0], key, pair, alone) + RightJoin(left, right[1..], key, pair, alone)
  }

  /** The partners of `r` hold `pair(l, r)` once per copy of `l` in `left`,
      when no other left row pairs with `r` into the same row. */
  lemma {:induction false} PartnersCount<L(!new), R, O(!new)>(left: seq<L>, r: R, key: (L, R) -> bool, pair: (L, R) -> O, l: L)
    requires key(l, r)
    requires forall m :: key(m, r) && pair(m, r) == pair(l, r) ==> m == l
    ensures multiset(Partners(left, r, key, pair))[pair(l, r)] == multiset(left)[l]
  {
    if left != [] {
      PartnersCount(left[1..], r, key, pair, l);
      assert left == [left[0]] + left[1..];
    }
  }

  /** A matched pair `(l, right[i])` yields as many rows of the join as `left`
      holds copies of `l`, when no other pairing and no other right row gives
      the same output row. */
  lemma {:induction false} RightJoinPairCount<L(!new), R(!new), O(!new)>(left: seq<L>, right: seq<R>, key: (L, R) -> bool, pair: (L, R) -> O, alone: R -> O, l: L, i: nat)
    requires i < |right| && l in left && key(l, right[i])
    requires forall m :: key(m, right[i]) && pair(m, right[i]) == pair(l, right[i]) ==> m == l
    requires forall j, m :: 0 <= j < |right| && j != i ==> pair(m, right[j]) != pair(l, right[i])
    requires forall j :: 0 <= j < |right| ==> alone(right[j]) != pair(l, right[i])
    ensures multiset(RightJoin(left, right, key, pair, alone))[pair(l, right[i])] == multiset(left)[l]
  {
    var x := pair(l, right[i]);
    var head := Block(left, right[0], key, pair, alone);
    var tail := RightJoin(left, right[1..], key, pair, alone);
    assert RightJoin(left, right, key, pair, alone) == head + tail;
    if i == 0 {
      PartnersCount(left, right[0], key, pair, l);
      assert forall j :: 1 <= j < |right| ==> right[j] == right[1..][j - 1];
      assert x !in tail;
    } else {
      assert right[1..][i - 1] == right[i];
      RightJoinPairCount(left, right[1..], key, pair, alone, l, i - 1);
      assert x !in head;
    }
  }

  /** An unmatched right row `right[i]` yields exactly one row of the join,
      when no pairing and no other right row gives the same output row. */
  lemma {:induction false} RightJoinAloneCount<L(!new), R(!new), O(!new)>(left: seq<L>, right: seq<R>, key: (L, R) -> bool, pair: (L, R) -> O, alone: R -> O, i: nat)
    requires i < |right| && Unpartnered(left, right[i], key)
    requires forall j, m :: 0 <= j < |right| ==> pair(m, right[j]) != alone(right[i])
    requires forall j :: 0 <= j < |right| && j != i ==> alone(right[j]) != alone(right[i])
    ensures multiset(RightJoin(left, right, key, pair, alone))[alone(right[i])] == 1
  {
    var x := alone(right[i]);
    var head := Block(left, right[0], key, pair, alone);
    var tail := RightJoin(left, right[1..], key, pair, alone);
    assert RightJoin(left, right, key, pair, alone) == head + tail;
    if i == 0 {
      assert forall j :: 1 <= j < |right| ==> right[j] == right[1..][j - 1];
      assert x !in tail;
    } else {
      assert right[1..][i - 1] == right[i];
      RightJoinAloneCount(left, right[1..], key, pair, alone, i - 1);
      assert x !in head;
    }
  }
}
