/** 64-bit amounts, their sums, and the order Rust's stable descending sort puts them in. */
module Amounts {
  const U64_MAX := 0xFFFF_FFFF_FFFF_FFFF

  type u64 = x: int | 0 <= x <= U64_MAX

  function SaturatingAdd(x: u64, y: u64): u64
  {
    if x + y <= U64_MAX then x + y else U64_MAX
  }

  function Pow2(n: nat): (p: nat)
    ensures p >= 1
  {
    if n == 0 then 1 else 2 * Pow2(n - 1)
  }

  lemma {:induction false} Pow2Monotone(m: nat, n: nat)
    requires m <= n
    ensures Pow2(m) <= Pow2(n)
  {
    if m == n {
    } else {
      Pow2Monotone(m, n - 1);
    }
  }

  function Sum(a: seq<u64>): nat
  {
    if a == [] then 0 else a[0] + Sum(a[1..])
  }

  lemma {:induction false} SumConcat(a: seq<u64>, b: seq<u64>)
    ensures Sum(a + b) == Sum(a) + Sum(b)
  {
    if a == [] {
      assert a + b == b;
    } else {
      SumConcat(a[1..], b);
      assert (a + b)[1..] == a[1..] + b;
    }
  }

  // The sum over a set of positions.
  ghost function SumAt(a: seq<u64>, S: set<nat>): nat
    requires forall i :: i in S ==> i < |a|
    decreases |S|
  {
    if S == {} then 0 else
      var i :| i in S;
      a[i] + SumAt(a, S - {i})
  }

  lemma {:induction false} SumAtRemove(a: seq<u64>, S: set<nat>, i: nat)
    requires forall j :: j in S ==> j < |a|
    requires i in S
    ensures SumAt(a, S) == a[i] + SumAt(a, S - {i})
    decreases |S|
  {
    var k :| k in S && SumAt(a, S) == a[k] + SumAt(a, S - {k});
    if k != i {
      SumAtRemove(a, S - {k}, i);
      SumAtRemove(a, S - {i}, k);
      assert S - {k} - {i} == S - {i} - {k};
    }
  }

  // ---- The stable descending order ----

  // Position `x` comes before position `y`: larger amount first, equal amounts in original order.
  predicate Before(a: seq<u64>, x: nat, y: nat)
    requires x < |a| && y < |a|
  {
    a[x] > a[y] || (a[x] == a[y] && x < y)
  }

  predicate Positions(a: seq<u64>, order: seq<nat>)
  {
    forall i :: 0 <= i < |order| ==> order[i] < |a|
  }

  ghost predicate InOrder(a: seq<u64>, order: seq<nat>)
    requires Positions(a, order)
  {
    forall i, j :: 0 <= i < j < |order| ==> Before(a, order[i], order[j])
  }

  // `order` lists every position once, in descending stable order.
  ghost predicate IsDescending(a: seq<u64>, order: seq<nat>)
  {
    && |order| == |a|
    && Positions(a, order)
    && InOrder(a, order)
    && forall x: nat :: x < |a| ==> x in order
  }

  function Insert(a: seq<u64>, order: seq<nat>, x: nat): (r: seq<nat>)
    requires Positions(a, order) && x < |a|
    ensures |r| == |order| + 1 && Positions(a, r)
    ensures forall y :: y in r <==> y == x || y in order
  {
    if order != [] && a[order[0]] >= a[x] then [order[0]] + Insert(a, order[1..], x)
    else [x] + order
  }

  lemma {:induction false} InsertInOrder(a: seq<u64>, order: seq<nat>, x: nat)
    requires Positions(a, order) && x < |a| && InOrder(a, order)
    requires forall y :: y in order ==> y < x
    ensures InOrder(a, Insert(a, order, x))
  {
    var r := Insert(a, order, x);
    if order != [] && a[order[0]] >= a[x] {
      assert forall y :: y in order[1..] ==> y in order;
      InsertInOrder(a, order[1..], x);
      forall j | 0 < j < |r| ensures Before(a, r[0], r[j]) {
        assert r[j] in Insert(a, order[1..], x);
        assert order[0] in order;
        if r[j] in order[1..] {
          var i :| 0 <= i < |order| - 1 && order[1..][i] == r[j];
          assert Before(a, order[0], order[i + 1]);
        }
      }
    } else {
      forall j | 0 < j < |r| ensures Before(a, r[0], r[j]) {
        assert r[j] == order[j - 1];
      }
    }
  }

  // The order of the first `n` positions: what the stable sort of the source computes.
  function OrderOf(a: seq<u64>, n: nat): (order: seq<nat>)
    requires n <= |a|
    ensures |order| == n && Positions(a, order)
    ensures forall x: nat :: x in order <==> x < n
  {
    if n == 0 then [] else Insert(a, OrderOf(a, n - 1), n - 1)
  }

  lemma {:induction false} OrderOfInOrder(a: seq<u64>, n: nat)
    requires n <= |a|
    ensures InOrder(a, OrderOf(a, n))
  {
    if n == 0 {
    } else {
      OrderOfInOrder(a, n - 1);
      InsertInOrder(a, OrderOf(a, n - 1), n - 1);
    }
  }

  function Descending(a: seq<u64>): (order: seq<nat>)
    ensures |order| == |a| && Positions(a, order)
    ensures forall x: nat :: x in order <==> x < |a|
  {
    OrderOf(a, |a|)
  }

  lemma DescendingIsDescending(a: seq<u64>)
    ensures IsDescending(a, Descending(a))
  {
    OrderOfInOrder(a, |a|);
  }

  // ---- Subsets of positions, read in the sorted order ----

  // The amounts at the listed positions.
  function At(a: seq<u64>, ps: seq<nat>): (r: seq<u64>)
    requires Positions(a, ps)
    ensures |r| == |ps|
  {
    seq(|ps|, i requires 0 <= i < |ps| => a[ps[i]])
  }

  // A choice of positions in ascending order, none below `lo`.
  ghost predicate IsPick(a: seq<u64>, p: seq<nat>, lo: nat)
  {
    && (forall i :: 0 <= i < |p| ==> lo <= p[i] < |a|)
    && (forall i, j :: 0 <= i < j < |p| ==> p[i] < p[j])
  }

  // The positions k, from `lo` on, at which `order` lists a member of S.
  ghost function PickFrom(order: seq<nat>, S: set<nat>, lo: nat): (p: seq<nat>)
    requires lo <= |order|
    ensures forall i :: 0 <= i < |p| ==> lo <= p[i] < |order|
    ensures forall i, j :: 0 <= i < j < |p| ==> p[i] < p[j]
    decreases |order| - lo
  {
    if lo == |order| then []
    else if order[lo] in S then [lo] + PickFrom(order, S, lo + 1)
    else PickFrom(order, S, lo + 1)
  }

  // What remains of S in the order from `lo` on.
  ghost function Among(order: seq<nat>, S: set<nat>, lo: nat): set<nat>
    requires lo <= |order|
  {
    set x | x in S && x in order[lo..]
  }

  lemma AmongStep(a: seq<u64>, order: seq<nat>, S: set<nat>, lo: nat)
    requires IsDescending(a, order) && lo < |a|
    ensures var T, T' := Among(order, S, lo), Among(order, S, lo + 1);
            if order[lo] in S then order[lo] in T && T' == T - {order[lo]} else T' == T
  {
    forall j | lo < j < |order| ensures order[j] != order[lo] {
      assert Before(a, order[lo], order[j]);
    }
    assert order[lo..] == [order[lo]] + order[lo + 1..];
  }

  lemma SumAtCons(b: seq<u64>, k: nat, q: seq<nat>)
    requires k < |b| && Positions(b, q)
    ensures Positions(b, [k] + q) && Sum(At(b, [k] + q)) == b[k] + Sum(At(b, q))
  {
    assert At(b, [k] + q)[1..] == At(b, q);
  }

  lemma EmptySum(b: seq<u64>)
    ensures At(b, []) == [] && Sum([]) == 0
  {
  }

  lemma {:induction false} PickFromSum(a: seq<u64>, order: seq<nat>, S: set<nat>, lo: nat)
    requires IsDescending(a, order) && lo <= |a|
    ensures var p := PickFrom(order, S, lo);
            && |p| == |Among(order, S, lo)|
            && Sum(At(At(a, order), p)) == SumAt(a, Among(order, S, lo))
    decreases |a| - lo
  {
    hide InOrder, Sum;
    if lo == |a| {
      assert Among(order, S, lo) == {};
      EmptySum(At(a, order));
    } else {
      PickFromSum(a, order, S, lo + 1);
      AmongStep(a, order, S, lo);
      if order[lo] in S {
        SumAtRemove(a, Among(order, S, lo), order[lo]);
        SumAtCons(At(a, order), lo, PickFrom(order, S, lo + 1));
      }
    }
  }

  /** Every set of positions is an ascending pick of the sorted amounts, with the same size and sum. */
  lemma SetAsPick(a: seq<u64>, order: seq<nat>, S: set<nat>) returns (p: seq<nat>)
    requires IsDescending(a, order) && forall x :: x in S ==> x < |a|
    ensures IsPick(At(a, order), p, 0) && |p| == |S| && Sum(At(At(a, order), p)) == SumAt(a, S)
  {
    p := PickFrom(order, S, 0);
    PickFromSum(a, order, S, 0);
    assert Among(order, S, 0) == S;
  }
}
