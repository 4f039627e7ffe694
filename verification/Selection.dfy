/**
 Largest-first selection of stored proofs
 (cashu-core-lite/src/persistent.rs, the loops of `spend` and `select_covering`).
 */
module Selection {
  import opened Amounts

  // How many of the amounts, taken from the front, it takes to reach `amount`.
  function Needed(s: seq<u64>, amount: int): (k: nat)
    ensures k <= |s|
  {
    if amount <= 0 || s == [] then 0 else 1 + Needed(s[1..], amount - s[0])
  }

  /** `Needed` is the least prefix that covers the amount, when the whole covers it. */
  lemma {:induction false} NeededIsLeast(s: seq<u64>, amount: int)
    requires Sum(s) >= amount
    ensures Sum(s[..Needed(s, amount)]) >= amount
    ensures forall j :: 0 <= j < Needed(s, amount) ==> Sum(s[..j]) < amount
  {
    if amount > 0 && s != [] {
      var t, rest := s[1..], amount - s[0];
      NeededIsLeast(t, rest);
      forall j | 0 < j <= Needed(s, amount) ensures Sum(s[..j]) == s[0] + Sum(t[..j - 1]) {
        assert s[..j][1..] == t[..j - 1];
      }
    }
  }

  // The positions both selections settle on.
  function Largest(amounts: seq<u64>, amount: u64): (r: seq<nat>)
    ensures Positions(amounts, r)
  {
    var order := Descending(amounts);
    order[..Needed(At(amounts, order), amount)]
  }

  lemma {:induction false} NeededFrom(s: seq<u64>, amount: u64, i: nat)
    requires i <= |s|
    requires forall j :: 0 <= j < i ==> Sum(s[..j]) < amount
    ensures i <= Needed(s, amount)
    ensures Needed(s, amount) == i + Needed(s[i..], amount - Sum(s[..i]))
  {
    if i == 0 {
      assert s[0..] == s && s[..0] == [];
    } else {
      NeededFrom(s, amount, i - 1);
      assert s[i - 1..][1..] == s[i..] && s[i - 1..][0] == s[i - 1];
      PrefixSum(s, i - 1);
    }
  }

  lemma PrefixSum(s: seq<u64>, i: nat)
    requires i < |s|
    ensures Sum(s[..i + 1]) == Sum(s[..i]) + s[i]
  {
    assert s[..i + 1] == s[..i] + [s[i]];
    SumConcat(s[..i], [s[i]]);
    assert [s[i]][1..] == [];
  }

  /** The loop of `spend`: push proofs, largest first, until the running total reaches the amount. */
  method SelectForSpend(amounts: seq<u64>, amount: u64) returns (selected: seq<nat>)
    ensures selected == Largest(amounts, amount)
  {
    var order := Descending(amounts);
    var sorted := At(amounts, order);
    selected := [];
    var acc, i := 0, 0;
    while i < |order|
      invariant 0 <= i <= |order|
      invariant selected == order[..i] && acc == Sum(sorted[..i])
      invariant forall j :: 0 <= j < i ==> Sum(sorted[..j]) < amount
    {
      if acc >= amount {
        break;
      }
      PrefixSum(sorted, i);
      acc := acc + sorted[i];
      selected := selected + [order[i]];
      i := i + 1;
    }
    NeededFrom(sorted, amount, i);
  }

  /** The `take_while` of `select_covering`: the closure keeps its own running total. */
  method SelectCovering(amounts: seq<u64>, amount: u64) returns (selected: seq<nat>)
    ensures selected == Largest(amounts, amount)
  {
    var order := Descending(amounts);
    var sorted := At(amounts, order);
    var acc, i, taking := 0, 0, true;
    while taking && i < |order|
      invariant 0 <= i <= |order|
      invariant acc == Sum(sorted[..i])
      invariant forall j :: 0 <= j < i ==> Sum(sorted[..j]) < amount
      invariant !taking ==> acc >= amount
      decreases taking, |order| - i
    {
      if acc >= amount {
        taking := false;
      } else {
        PrefixSum(sorted, i);
        acc := acc + sorted[i];
        i := i + 1;
      }
    }
    NeededFrom(sorted, amount, i);
    selected := order[..i];
  }

  // ---- Optimality ----

  // No choice of m positions beats the first m of a descending sequence.
  lemma {:induction false} TopIsLargest(s: seq<u64>, p: seq<nat>)
    requires forall i, j :: 0 <= i < j < |s| ==> s[i] >= s[j]
    requires IsPick(s, p, 0)
    ensures |p| <= |s| && Sum(At(s, p)) <= Sum(s[..|p|])
  {
    if p == [] {
    } else {
      var m := |p| - 1;
      TopIsLargest(s, p[..m]);
      PickAtLeast(s, p, m);
      assert At(s, p) == At(s, p[..m]) + [s[p[m]]];
      SumConcat(At(s, p[..m]), [s[p[m]]]);
      assert [s[p[m]]][1..] == [];
      PrefixSum(s, m);
    }
  }

  lemma {:induction false} PickAtLeast(s: seq<u64>, p: seq<nat>, m: nat)
    requires IsPick(s, p, 0) && m < |p|
    ensures m <= p[m] < |s|
  {
    if m == 0 {
    } else {
      PickAtLeast(s, p, m - 1);
    }
  }

  lemma {:induction false} PrefixMonotone(s: seq<u64>, i: nat, j: nat)
    requires i <= j <= |s|
    ensures Sum(s[..i]) <= Sum(s[..j])
  {
    if i == j {
    } else {
      PrefixMonotone(s, i, j - 1);
      PrefixSum(s, j - 1);
    }
  }

  /** When the balance covers the amount, the selection is a list of distinct stored proofs that
      covers it, no longer than any other set of stored proofs that does, and it stops covering it
      when its last proof is dropped. */
  lemma LargestIsOptimal(amounts: seq<u64>, amount: u64)
    requires Sum(amounts) >= amount
    ensures var r := Largest(amounts, amount);
            && (forall i, j :: 0 <= i < j < |r| ==> r[i] != r[j])
            && Sum(At(amounts, r)) >= amount
            && (r != [] ==> Sum(At(amounts, r[..|r| - 1])) < amount)
            && forall S: set<nat> | (forall x :: x in S ==> x < |amounts|) && SumAt(amounts, S) >= amount :: |r| <= |S|
  {
    var order, r := Descending(amounts), Largest(amounts, amount);
    DescendingIsDescending(amounts);
    var sorted := At(amounts, order);
    SortedSum(amounts, order);
    NeededIsLeast(sorted, amount);
    assert forall j :: 0 <= j <= |r| ==> At(amounts, r[..j]) == sorted[..j];
    assert r[..|r|] == r;
    forall i, j | 0 <= i < j < |r| ensures r[i] != r[j] {
      assert Before(amounts, order[i], order[j]);
    }
    forall S: set<nat> | (forall x :: x in S ==> x < |amounts|) && SumAt(amounts, S) >= amount
      ensures |r| <= |S|
    {
      AtLeastAsMany(amounts, order, amount, S);
    }
  }

  lemma AtLeastAsMany(amounts: seq<u64>, order: seq<nat>, amount: u64, S: set<nat>)
    requires IsDescending(amounts, order)
    requires (forall x :: x in S ==> x < |amounts|) && SumAt(amounts, S) >= amount
    requires forall j :: 0 <= j < Needed(At(amounts, order), amount) ==> Sum(At(amounts, order)[..j]) < amount
    ensures Needed(At(amounts, order), amount) <= |S|
  {
    var sorted := At(amounts, order);
    var p := SetAsPick(amounts, order, S);
    forall i, j | 0 <= i < j < |sorted| ensures sorted[i] >= sorted[j] {
      assert Before(amounts, order[i], order[j]);
    }
    TopIsLargest(sorted, p);
  }

  ghost function Below(n: nat): (S: set<nat>)
    ensures forall x: nat :: x in S <==> x < n
  {
    if n == 0 then {} else Below(n - 1) + {n - 1}
  }

  // Sorting does not change the sum.
  lemma SortedSum(amounts: seq<u64>, order: seq<nat>)
    requires IsDescending(amounts, order)
    ensures Sum(At(amounts, order)) == Sum(amounts)
  {
    hide InOrder, Sum, SumAt, PickFrom;
    var all := Below(|amounts|);
    PickFromSum(amounts, order, all, 0);
    assert Among(order, all, 0) == all;
    PickEverything(order, all, 0);
    AtIdentity(At(amounts, order));
    SumAtAll(amounts, |amounts|);
    assert amounts[..|amounts|] == amounts;
  }

  lemma {:induction false} PickEverything(order: seq<nat>, all: set<nat>, lo: nat)
    requires lo <= |order| && forall i :: 0 <= i < |order| ==> order[i] in all
    ensures PickFrom(order, all, lo) == seq(|order| - lo, i => lo + i)
    decreases |order| - lo
  {
    if lo == |order| {
    } else {
      PickEverything(order, all, lo + 1);
    }
  }

  lemma AtIdentity(s: seq<u64>)
    ensures Positions(s, seq(|s|, i => 0 + i)) && At(s, seq(|s|, i => 0 + i)) == s
  {
  }

  lemma {:induction false} SumAtAll(a: seq<u64>, n: nat)
    requires n <= |a|
    ensures SumAt(a, Below(n)) == Sum(a[..n])
  {
    if n == 0 {
    } else {
      SumAtAll(a, n - 1);
      SumAtRemove(a, Below(n), n - 1);
      assert Below(n) - {n - 1} == Below(n - 1);
      PrefixSum(a, n - 1);
    }
  }
}
