/**
 The exact-subset search of the persistent wallet
 (cashu-core-lite/src/persistent.rs, `find_exact` and its inner `dfs`): a depth-first search
 over the amounts in descending order, pruned by saturating suffix sums, skipping equal coins,
 and giving up once a node counter reaches a cap.
 */
module ExactSearch {
  import opened Results
  import opened Amounts
  import opened CoinHands

  const NODE_CAP := 100_000

  // The node counter has 32 bits; this many proofs cannot make it overflow.
  const U32_MAX := 0xFFFF_FFFF
  const COUNTABLE := 92_681

  // A sum as the saturating additions of the source leave it.
  function Capped(sum: nat): u64
  {
    if sum <= U64_MAX then sum else U64_MAX
  }

  // ---- The search as a function: the pick found, if any, and the nodes counted ----

  function Search(a: seq<u64>, suffix: seq<u64>, start: nat, remaining: u64, nodes: nat): (Option<seq<nat>>, nat)
    requires start <= |a| < |suffix|
    decreases |a| - start, 1
  {
    if remaining == 0 then (Some([]), nodes)
    else if nodes >= NODE_CAP || suffix[start] < remaining then (None, nodes)
    else Scan(a, suffix, start, None, remaining, nodes)
  }

  // The loop of the search, from position i on; `last` is the coin seen last.
  function Scan(a: seq<u64>, suffix: seq<u64>, i: nat, last: Option<u64>, remaining: u64,
                nodes: nat): (Option<seq<nat>>, nat)
    requires i <= |a| < |suffix|
    decreases |a| - i, 0
  {
    if i == |a| then (None, nodes)
    else if last == Some(a[i]) || a[i] > remaining then Scan(a, suffix, i + 1, Some(a[i]), remaining, nodes)
    else
      var (hit, nodes') := Search(a, suffix, i + 1, remaining - a[i], nodes + 1);
      if hit.Some? then (Some([i] + hit.value), nodes')
      else Scan(a, suffix, i + 1, Some(a[i]), remaining, nodes')
  }

  // ---- The search as the source runs it ----

  ghost predicate Suffixes(a: seq<u64>, suffix: seq<u64>)
  {
    && |suffix| == |a| + 1
    && forall k :: 0 <= k <= |a| ==> suffix[k] == Capped(Sum(a[k..]))
  }

  method SuffixSums(a: seq<u64>) returns (suffix: seq<u64>)
    ensures Suffixes(a, suffix)
  {
    var sums := new u64[|a| + 1](_ => 0);
    var k := |a|;
    while k > 0
      invariant 0 <= k <= |a|
      invariant forall i :: k <= i <= |a| ==> sums[i] == Capped(Sum(a[i..]))
    {
      k := k - 1;
      assert a[k..][0] == a[k] && a[k..][1..] == a[k + 1..];
      sums[k] := SaturatingAdd(sums[k + 1], a[k]);
    }
    suffix := sums[..];
  }

  /** The inner depth-first search; `chosen` and `nodes` are the source's mutable borrows. */
  method Dfs(a: seq<u64>, suffix: seq<u64>, start: nat, remaining: u64, chosen: seq<nat>, nodes: nat)
    returns (found: bool, chosen': seq<nat>, nodes': nat)
    requires start <= |a| < |suffix|
    ensures var (hit, n) := Search(a, suffix, start, remaining, nodes);
            && nodes' == n
            && found == hit.Some?
            && chosen' == chosen + (if found then hit.value else [])
    decreases |a| - start
  {
    chosen', nodes' := chosen, nodes;
    if remaining == 0 {
      return true, chosen', nodes';
    }
    if nodes' >= NODE_CAP || suffix[start] < remaining {
      return false, chosen', nodes';
    }
    ghost var goal := Search(a, suffix, start, remaining, nodes);
    var last: Option<u64> := None;
    var i := start;
    while i < |a|
      invariant start <= i <= |a|
      invariant chosen' == chosen
      invariant Scan(a, suffix, i, last, remaining, nodes') == goal
    {
      var coin := a[i];
      if last != Some(coin) {
        last := Some(coin);
        if coin <= remaining {
          nodes' := nodes' + 1;
          chosen' := chosen' + [i];
          found, chosen', nodes' := Dfs(a, suffix, i + 1, remaining - coin, chosen', nodes');
          if found {
            assert chosen' == chosen + goal.0.value;
            return;
          }
          chosen' := chosen'[..|chosen'| - 1];
        }
      }
      i := i + 1;
    }
    found := false;
  }

  // ---- Soundness ----

  lemma PickCons(a: seq<u64>, i: nat, q: seq<nat>, lo: nat)
    requires lo <= i < |a| && IsPick(a, q, i + 1)
    ensures IsPick(a, [i] + q, lo)
    ensures Sum(At(a, [i] + q)) == a[i] + Sum(At(a, q))
  {
    SumAtCons(a, i, q);
  }

  lemma PickTail(a: seq<u64>, p: seq<nat>, lo: nat)
    requires IsPick(a, p, lo) && p != []
    ensures IsPick(a, p[1..], p[0] + 1)
    ensures Sum(At(a, p)) == a[p[0]] + Sum(At(a, p[1..]))
  {
    forall i | 0 <= i < |p[1..]| ensures p[0] + 1 <= p[1..][i] < |a| {
      assert p[1..][i] == p[i + 1];
    }
    assert [p[0]] + p[1..] == p;
    SumAtCons(a, p[0], p[1..]);
  }

  /** Whatever the search returns is a pick of exactly the amount asked for. */
  lemma {:induction false} SearchSound(a: seq<u64>, suffix: seq<u64>, start: nat, remaining: u64, nodes: nat)
    requires start <= |a| < |suffix|
    ensures var hit := Search(a, suffix, start, remaining, nodes).0;
            hit.Some? ==> IsPick(a, hit.value, start) && Sum(At(a, hit.value)) == remaining
    decreases |a| - start, 1
  {
    if remaining == 0 {
      assert At(a, []) == [];
    } else {
      ScanSound(a, suffix, start, None, remaining, nodes);
    }
  }

  lemma {:induction false} ScanSound(a: seq<u64>, suffix: seq<u64>, i: nat, last: Option<u64>, remaining: u64,
                                     nodes: nat)
    requires i <= |a| < |suffix|
    ensures var hit := Scan(a, suffix, i, last, remaining, nodes).0;
            hit.Some? ==> IsPick(a, hit.value, i) && Sum(At(a, hit.value)) == remaining
    decreases |a| - i, 0
  {
    if i == |a| {
    } else if last == Some(a[i]) || a[i] > remaining {
      ScanSound(a, suffix, i + 1, Some(a[i]), remaining, nodes);
    } else {
      var (hit, nodes') := Search(a, suffix, i + 1, remaining - a[i], nodes + 1);
      SearchSound(a, suffix, i + 1, remaining - a[i], nodes + 1);
      ScanSound(a, suffix, i + 1, Some(a[i]), remaining, nodes');
      if hit.Some? {
        PickCons(a, i, hit.value, i);
      }
    }
  }

  // ---- Completeness below the cap ----

  // No choice of positions from `lo` on adds up to `target`.
  ghost predicate NoPick(a: seq<u64>, lo: nat, target: int)
  {
    forall p :: IsPick(a, p, lo) ==> Sum(At(a, p)) != target
  }

  // A pick from `lo` on never exceeds the sum of that whole suffix.
  lemma {:induction false} PickBelowSuffix(a: seq<u64>, p: seq<nat>, lo: nat)
    requires lo <= |a| && IsPick(a, p, lo)
    ensures Sum(At(a, p)) <= Sum(a[lo..])
    decreases |a| - lo
  {
    if p == [] {
      assert At(a, p) == [];
    } else {
      assert lo <= p[0] < |a|;
      assert a[lo..] == [a[lo]] + a[lo + 1..];
      if p[0] == lo {
        PickTail(a, p, lo);
        PickBelowSuffix(a, p[1..], lo + 1);
      } else {
        PickBelowSuffix(a, p, lo + 1);
      }
    }
  }

  // The saturated suffix sum falls below `target` only if every pick does.
  lemma SuffixPrunes(a: seq<u64>, lo: nat, target: u64)
    requires lo <= |a| && Capped(Sum(a[lo..])) < target
    ensures NoPick(a, lo, target)
  {
    forall p | IsPick(a, p, lo) ensures Sum(At(a, p)) != target {
      PickBelowSuffix(a, p, lo);
    }
  }

  // Position i starts no solution and neither does any later one.
  lemma NoPickHere(a: seq<u64>, i: nat, target: u64)
    requires i < |a| && NoPick(a, i + 1, target) && NoPick(a, i + 1, target - a[i])
    ensures NoPick(a, i, target)
  {
    forall p | IsPick(a, p, i) ensures Sum(At(a, p)) != target {
      if p != [] && p[0] == i {
        PickTail(a, p, i);
      } else {
        assert IsPick(a, p, i + 1);
      }
    }
  }

  lemma NoPickLater(a: seq<u64>, i: nat, target: int)
    requires NoPick(a, i, target)
    ensures NoPick(a, i + 1, target)
  {
    forall p | IsPick(a, p, i + 1) ensures Sum(At(a, p)) != target {
      assert IsPick(a, p, i);
    }
  }

  lemma NothingPastTheEnd(a: seq<u64>, target: int)
    requires target > 0
    ensures NoPick(a, |a|, target)
  {
    forall p | IsPick(a, p, |a|) ensures Sum(At(a, p)) != target {
      PickBelowSuffix(a, p, |a|);
    }
  }

  lemma NegativeTarget(a: seq<u64>, lo: nat, target: int)
    requires target < 0
    ensures NoPick(a, lo, target)
  {
  }

  // The counter only grows, so a search that ends below the cap never met it.
  lemma {:induction false} NodesGrow(a: seq<u64>, suffix: seq<u64>, start: nat, remaining: u64, nodes: nat)
    requires start <= |a| < |suffix|
    ensures Search(a, suffix, start, remaining, nodes).1 >= nodes
    decreases |a| - start, 1
  {
    ScanNodesGrow(a, suffix, start, None, remaining, nodes);
  }

  lemma {:induction false} ScanNodesGrow(a: seq<u64>, suffix: seq<u64>, i: nat, last: Option<u64>, remaining: u64,
                                         nodes: nat)
    requires i <= |a| < |suffix|
    ensures Scan(a, suffix, i, last, remaining, nodes).1 >= nodes
    decreases |a| - i, 0
  {
    if i == |a| {
    } else if last == Some(a[i]) || a[i] > remaining {
      ScanNodesGrow(a, suffix, i + 1, Some(a[i]), remaining, nodes);
    } else {
      NodesGrow(a, suffix, i + 1, remaining - a[i], nodes + 1);
      ScanNodesGrow(a, suffix, i + 1, Some(a[i]), remaining, Search(a, suffix, i + 1, remaining - a[i], nodes + 1).1);
    }
  }

  /** A miss that ends below the cap means that no pick has the amount: neither the pruning nor the
      skipping of equal coins loses a solution. */
  lemma {:induction false} SearchComplete(a: seq<u64>, suffix: seq<u64>, start: nat, remaining: u64, nodes: nat)
    requires start <= |a| && Suffixes(a, suffix)
    requires Search(a, suffix, start, remaining, nodes).0.None? &&
             Search(a, suffix, start, remaining, nodes).1 < NODE_CAP
    ensures NoPick(a, start, remaining)
    decreases |a| - start, 1
  {
    if suffix[start] < remaining {
      SuffixPrunes(a, start, remaining);
    } else {
      ScanComplete(a, suffix, start, None, remaining, nodes);
    }
  }

  // What `last` promises: no pick from here on, together with that coin, has the amount.
  lemma {:induction false} ScanComplete(a: seq<u64>, suffix: seq<u64>, i: nat, last: Option<u64>, remaining: u64,
                                        nodes: nat)
    requires i <= |a| && Suffixes(a, suffix) && remaining > 0
    requires Scan(a, suffix, i, last, remaining, nodes).0.None? &&
             Scan(a, suffix, i, last, remaining, nodes).1 < NODE_CAP
    requires last.Some? ==> NoPick(a, i, remaining - last.value)
    ensures NoPick(a, i, remaining)
    decreases |a| - i, 0
  {
    if i == |a| {
      NothingPastTheEnd(a, remaining);
    } else {
      var nodes' := nodes;
      if last == Some(a[i]) {
        NoPickLater(a, i, remaining - a[i]);
      } else if a[i] > remaining {
        NegativeTarget(a, i + 1, remaining - a[i]);
      } else {
        nodes' := Search(a, suffix, i + 1, remaining - a[i], nodes + 1).1;
        ScanNodesGrow(a, suffix, i + 1, Some(a[i]), remaining, nodes');
        SearchComplete(a, suffix, i + 1, remaining - a[i], nodes + 1);
      }
      ScanComplete(a, suffix, i + 1, Some(a[i]), remaining, nodes');
      NoPickHere(a, i, remaining);
    }
  }

  // ---- The work bound ----

  // The overshoot past the cap that the loops still on the stack can add: n(n-1)/2.
  function Triangle(n: nat): nat
  {
    if n == 0 then 0 else Triangle(n - 1) + (n - 1)
  }

  lemma {:induction false} TriangleIs(n: nat)
    ensures 2 * Triangle(n) == n * (n - 1)
  {
    if n == 0 {
    } else {
      TriangleIs(n - 1);
    }
  }

  lemma {:induction false} TriangleMonotone(m: nat, n: nat)
    requires m <= n
    ensures Triangle(m) <= Triangle(n)
  {
    if m == n {
    } else {
      TriangleMonotone(m, n - 1);
    }
  }

  /** The work bound fits the 32-bit counter up to 92681 proofs, and no further. */
  lemma CounterFits(n: nat)
    ensures NODE_CAP + Triangle(n) <= U32_MAX <==> n <= COUNTABLE
  {
    TriangleIs(COUNTABLE);
    TriangleIs(COUNTABLE + 1);
    if n <= COUNTABLE {
      TriangleMonotone(n, COUNTABLE);
    } else {
      TriangleMonotone(COUNTABLE + 1, n);
    }
  }

  /** At the cap the search returns at once; below it, it ends at most n(n-1)/2 nodes past the cap,
      because the parent loops go on counting. */
  lemma {:induction false} SearchBound(a: seq<u64>, suffix: seq<u64>, start: nat, remaining: u64, nodes: nat)
    requires start <= |a| < |suffix|
    ensures var nodes' := Search(a, suffix, start, remaining, nodes).1;
            if nodes >= NODE_CAP then nodes' == nodes else nodes' <= NODE_CAP + Triangle(|a| - start)
    decreases |a| - start, 1
  {
    ScanBound(a, suffix, start, None, remaining, nodes);
  }

  lemma {:induction false} ScanBound(a: seq<u64>, suffix: seq<u64>, i: nat, last: Option<u64>, remaining: u64,
                                     nodes: nat)
    requires i <= |a| < |suffix|
    ensures var nodes' := Scan(a, suffix, i, last, remaining, nodes).1;
            if nodes >= NODE_CAP then nodes' <= nodes + (|a| - i) else nodes' <= NODE_CAP + Triangle(|a| - i)
    decreases |a| - i, 0
  {
    if i == |a| {
    } else if last == Some(a[i]) || a[i] > remaining {
      ScanBound(a, suffix, i + 1, Some(a[i]), remaining, nodes);
    } else {
      SearchBound(a, suffix, i + 1, remaining - a[i], nodes + 1);
      ScanBound(a, suffix, i + 1, Some(a[i]), remaining, Search(a, suffix, i + 1, remaining - a[i], nodes + 1).1);
    }
  }

  // What is still to be counted at position i: after a coin equal to the one seen last, its whole run is skipped.
  function Ahead(a: seq<u64>, i: nat, last: Option<u64>): nat
    requires i <= |a|
  {
    if i < |a| && last == Some(a[i]) then Choices(a, RunEnd(a, i)) else Choices(a, i)
  }

  /** The search counts each non-empty hand of coins at most once: equal coins are not told apart. */
  lemma {:induction false} SearchCountsHands(a: seq<u64>, suffix: seq<u64>, start: nat, remaining: u64, nodes: nat)
    requires start <= |a| < |suffix|
    ensures Search(a, suffix, start, remaining, nodes).1 < nodes + Choices(a, start)
    decreases |a| - start, 1
  {
    ScanCountsHands(a, suffix, start, None, remaining, nodes);
  }

  lemma {:induction false} ScanCountsHands(a: seq<u64>, suffix: seq<u64>, i: nat, last: Option<u64>, remaining: u64,
                                           nodes: nat)
    requires i <= |a| < |suffix|
    ensures Scan(a, suffix, i, last, remaining, nodes).1 < nodes + Ahead(a, i, last)
    decreases |a| - i, 0
  {
    if i == |a| {
      assert Choices(a, i) == 1;
    } else if last == Some(a[i]) || a[i] > remaining {
      ScanCountsHands(a, suffix, i + 1, Some(a[i]), remaining, nodes);
    } else {
      var nodes' := Search(a, suffix, i + 1, remaining - a[i], nodes + 1).1;
      SearchCountsHands(a, suffix, i + 1, remaining - a[i], nodes + 1);
      ScanCountsHands(a, suffix, i + 1, Some(a[i]), remaining, nodes');
    }
  }

  // ---- find_exact ----

  // The suffix sums as a value.
  function SuffixesOf(a: seq<u64>): (suffix: seq<u64>)
    ensures Suffixes(a, suffix)
  {
    seq(|a| + 1, k requires 0 <= k <= |a| => Capped(Sum(a[k..])))
  }

  // How the search over these amounts ends: whether it finds a pick, and the nodes it counts.
  function Ends(amounts: seq<u64>, amount: u64): (bool, nat)
  {
    var sorted := At(amounts, Descending(amounts));
    var (hit, nodes) := Search(sorted, SuffixesOf(sorted), 0, amount, 0);
    (hit.Some?, nodes)
  }

  // The call of the inner search on amounts already in order.
  method Solve(a: seq<u64>, amount: u64) returns (found: bool, chosen: seq<nat>, nodes: nat)
    ensures found ==> IsPick(a, chosen, 0) && Sum(At(a, chosen)) == amount
    ensures !found && nodes < NODE_CAP ==> NoPick(a, 0, amount)
    ensures nodes <= NODE_CAP + Triangle(|a|) && nodes < Choices(a, 0)
    ensures var (hit, n) := Search(a, SuffixesOf(a), 0, amount, 0); found == hit.Some? && nodes == n
  {
    var suffix := SuffixSums(a);
    assert suffix == SuffixesOf(a);
    found, chosen, nodes := Dfs(a, suffix, 0, amount, [], 0);
    assert found ==> chosen == Search(a, suffix, 0, amount, 0).0.value;
    SearchSound(a, suffix, 0, amount, 0);
    SearchBound(a, suffix, 0, amount, 0);
    SearchCountsHands(a, suffix, 0, amount, 0);
    if !found && nodes < NODE_CAP {
      SearchComplete(a, suffix, 0, amount, 0);
    }
  }

  // No set of positions adds up to the amount.
  ghost predicate NoSubset(amounts: seq<u64>, amount: u64)
  {
    forall S: set<nat> | (forall x :: x in S ==> x < |amounts|) :: SumAt(amounts, S) != amount
  }

  // What a caller can tell beforehand: so few different hands of coins that the cap cannot be met.
  ghost predicate WithinCap(amounts: seq<u64>)
  {
    Hands(multiset(amounts)) <= NODE_CAP
  }

  /** The positions of stored proofs worth exactly `amount`, and the nodes counted on the way.
      A hit is a list of distinct stored proofs with exactly that sum; a miss below the cap, and any
      miss over amounts that allow at most 100000 different hands, means that no set of stored proofs has that sum. */
  method FindExact(amounts: seq<u64>, amount: u64) returns (r: Option<seq<nat>>, nodes: nat)
    ensures amount == 0 ==> r.None?
    ensures amount > 0 ==> (r.Some?, nodes) == Ends(amounts, amount)
    ensures r.Some? ==>
              && Positions(amounts, r.value)
              && (forall i, j :: 0 <= i < j < |r.value| ==> r.value[i] != r.value[j])
              && Sum(At(amounts, r.value)) == amount
    ensures r.None? && amount > 0 && (nodes < NODE_CAP || WithinCap(amounts)) ==> NoSubset(amounts, amount)
    ensures nodes <= NODE_CAP + Triangle(|amounts|) && nodes < Hands(multiset(amounts))
    ensures |amounts| <= COUNTABLE ==> nodes <= U32_MAX
  {
    nodes := 0;
    SortedHands(amounts);
    if |amounts| <= COUNTABLE {
      CounterFits(|amounts|);
    }
    if amount == 0 {
      return None, nodes;
    }
    var order := Descending(amounts);
    DescendingIsDescending(amounts);
    var sorted := At(amounts, order);
    var found, chosen;
    found, chosen, nodes := Solve(sorted, amount);
    if !found {
      if nodes < NODE_CAP {
        NoPickNoSubset(amounts, order, amount);
      }
      return None, nodes;
    }
    var spent := seq(|chosen|, i requires 0 <= i < |chosen| => order[chosen[i]]);
    ChosenAreDistinct(amounts, order, chosen, spent);
    r := Some(spent);
  }

  /** Sixteen proofs of any amounts are few enough. */
  lemma SixteenProofsAreWithinCap(amounts: seq<u64>)
    requires |amounts| <= 16
    ensures WithinCap(amounts)
  {
    SortedHands(amounts);
    ChoicesBelowPow2(At(amounts, Descending(amounts)), 0);
    Pow2Monotone(|amounts|, 16);
    assert Pow2(8) == 256;
    assert Pow2(16) == 65536;
  }

  lemma NoPickNoSubset(a: seq<u64>, order: seq<nat>, amount: u64)
    requires IsDescending(a, order) && NoPick(At(a, order), 0, amount)
    ensures NoSubset(a, amount)
  {
    forall S: set<nat> | (forall x :: x in S ==> x < |a|) ensures SumAt(a, S) != amount {
      var p := SetAsPick(a, order, S);
    }
  }

  lemma ChosenAreDistinct(a: seq<u64>, order: seq<nat>, chosen: seq<nat>, r: seq<nat>)
    requires IsDescending(a, order) && IsPick(At(a, order), chosen, 0)
    requires |r| == |chosen| && forall i :: 0 <= i < |r| ==> r[i] == order[chosen[i]]
    ensures Positions(a, r) && At(a, r) == At(At(a, order), chosen)
    ensures forall i, j :: 0 <= i < j < |r| ==> r[i] != r[j]
  {
    forall i, j | 0 <= i < j < |r| ensures r[i] != r[j] {
      assert Before(a, order[chosen[i]], order[chosen[j]]);
    }
  }
}
