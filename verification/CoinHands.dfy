/** How many different hands of coins a purse allows: the number of sub-multisets of a multiset of amounts. */
module CoinHands {
  import opened Amounts

  // The product, over the distinct amounts, of how often the amount occurs plus one.
  ghost function Hands(m: multiset<u64>): nat
    decreases |m|
  {
    if m == multiset{} then 1
    else
      var c :| c in m;
      Shrinks(m, c);
      (m[c] + 1) * Hands(m[c := 0])
  }

  lemma Shrinks(m: multiset<u64>, c: u64)
    requires c in m
    ensures |m[c := 0]| < |m|
  {
    assert m == m[c := 0] + multiset{c}[c := m[c]];
  }

  // The order in which the amounts are taken does not matter.
  lemma {:induction false} TakeOut(m: multiset<u64>, c: u64)
    ensures Hands(m) == (m[c] + 1) * Hands(m[c := 0])
    decreases |m|
  {
    if c !in m {
      assert m[c := 0] == m;
    } else {
      var d :| d in m && Hands(m) == (m[d] + 1) * Hands(m[d := 0]);
      if d != c {
        Shrinks(m, c);
        Shrinks(m, d);
        TakeOut(m[d := 0], c);
        TakeOut(m[c := 0], d);
        assert m[d := 0][c := 0] == m[c := 0][d := 0];
        Exchange(m[c] + 1, m[d] + 1, Hands(m[c := 0][d := 0]));
      }
    }
  }

  lemma Exchange(x: nat, y: nat, z: nat)
    ensures x * (y * z) == y * (x * z)
  {
  }

  // One more coin: the hands without it, and those that hold every coin of its amount.
  lemma OneMore(m: multiset<u64>, c: u64)
    ensures Hands(m + multiset{c}) == Hands(m) + Hands(m[c := 0])
  {
    TakeOut(m, c);
    TakeOut(m + multiset{c}, c);
    assert (m + multiset{c})[c := 0] == m[c := 0];
    hide Hands;
    OnceMore(m[c] + 1, Hands(m[c := 0]));
  }

  lemma OnceMore(x: nat, y: nat)
    ensures (x + 1) * y == x * y + y
  {
  }

  // ---- The same number, read along a sorted sequence ----

  predicate Descends(a: seq<u64>) { forall i, j :: 0 <= i < j < |a| ==> a[i] >= a[j] }

  // The end of the run of equal amounts that position i belongs to.
  function RunEnd(a: seq<u64>, i: nat): (r: nat)
    requires i < |a|
    ensures i < r <= |a|
    decreases |a| - i
  {
    if i + 1 < |a| && a[i + 1] == a[i] then RunEnd(a, i + 1) else i + 1
  }

  function Choices(a: seq<u64>, i: nat): (r: nat)
    requires i <= |a|
    ensures r >= 1
    decreases |a| - i
  {
    if i == |a| then 1 else Choices(a, i + 1) + Choices(a, RunEnd(a, i))
  }

  lemma FirstOff(a: seq<u64>, i: nat)
    requires i < |a|
    ensures multiset(a[i..]) == multiset(a[i + 1..]) + multiset{a[i]}
  {
    assert a[i..] == [a[i]] + a[i + 1..];
  }

  lemma {:induction false} RunRemoved(a: seq<u64>, i: nat)
    requires i < |a| && Descends(a)
    ensures multiset(a[i..])[a[i] := 0] == multiset(a[RunEnd(a, i)..])
    decreases |a| - i
  {
    FirstOff(a, i);
    if i + 1 < |a| && a[i + 1] == a[i] {
      RunRemoved(a, i + 1);
    } else {
      assert forall j :: i < j < |a| ==> a[j] < a[i];
      assert a[i] !in a[i + 1..];
    }
  }

  lemma {:induction false} ChoicesAreHands(a: seq<u64>, i: nat)
    requires i <= |a| && Descends(a)
    ensures Choices(a, i) == Hands(multiset(a[i..]))
    decreases |a| - i
  {
    if i == |a| {
      assert a[i..] == [];
    } else {
      var c, m := a[i], multiset(a[i + 1..]);
      ChoicesAreHands(a, i + 1);
      ChoicesAreHands(a, RunEnd(a, i));
      FirstOff(a, i);
      RunRemoved(a, i);
      OneMore(m, c);
      assert (m + multiset{c})[c := 0] == m[c := 0];
    }
  }

  lemma {:induction false} ChoicesBelowPow2(a: seq<u64>, i: nat)
    requires i <= |a|
    ensures Choices(a, i) <= Pow2(|a| - i)
    decreases |a| - i
  {
    if i == |a| {
    } else {
      ChoicesBelowPow2(a, i + 1);
      ChoicesBelowPow2(a, RunEnd(a, i));
      Pow2Monotone(|a| - RunEnd(a, i), |a| - i - 1);
    }
  }

  // ---- Sorting keeps the multiset ----

  lemma {:induction false} InsertAdds(a: seq<u64>, order: seq<nat>, x: nat)
    requires Positions(a, order) && x < |a|
    ensures multiset(At(a, Insert(a, order, x))) == multiset(At(a, order)) + multiset{a[x]}
  {
    if order != [] && a[order[0]] >= a[x] {
      InsertAdds(a, order[1..], x);
      assert At(a, order) == [a[order[0]]] + At(a, order[1..]);
      assert At(a, Insert(a, order, x)) == [a[order[0]]] + At(a, Insert(a, order[1..], x));
    } else {
      assert At(a, [x] + order) == [a[x]] + At(a, order);
    }
  }

  lemma {:induction false} OrderKeepsMultiset(a: seq<u64>, n: nat)
    requires n <= |a|
    ensures multiset(At(a, OrderOf(a, n))) == multiset(a[..n])
  {
    if n == 0 {
      assert At(a, OrderOf(a, n)) == a[..n];
    } else {
      OrderKeepsMultiset(a, n - 1);
      InsertAdds(a, OrderOf(a, n - 1), n - 1);
      assert a[..n] == a[..n - 1] + [a[n - 1]];
    }
  }

  lemma SortedHands(a: seq<u64>)
    ensures Descends(At(a, Descending(a)))
    ensures Choices(At(a, Descending(a)), 0) == Hands(multiset(a))
  {
    var order := Descending(a);
    var sorted := At(a, order);
    DescendingIsDescending(a);
    forall i, j | 0 <= i < j < |sorted| ensures sorted[i] >= sorted[j] {
      assert Before(a, order[i], order[j]);
    }
    OrderKeepsMultiset(a, |a|);
    assert a[..|a|] == a && sorted[0..] == sorted;
    ChoicesAreHands(sorted, 0);
  }
}
