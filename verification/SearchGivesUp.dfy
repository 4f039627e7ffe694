/**
 A purse on which the exact-subset search gives up although two of its coins are worth the amount: past the node cap
 of cashu-core-lite/src/persistent.rs, `None` does not mean that no combination exists.
 */
module SearchGivesUp {
  import opened Results
  import opened Amounts
  import opened CoinHands
  import opened ExactSearch

  const TARGET: u64 := 2_000_000
  const BAIT := 100_000

  // 100000 different coins, each a little below the target, and then the two that add up to it.
  function Purse(): (a: seq<u64>)
    ensures |a| == BAIT + 2
    ensures forall i :: 0 <= i < BAIT ==> a[i] == TARGET - 1 - i
    ensures a[BAIT] == 1_000_001 && a[BAIT + 1] == 999_999
  {
    seq(BAIT + 2, i => if 0 <= i < BAIT then TARGET - 1 - i else if i == BAIT then 1_000_001 else 999_999)
  }

  // ---- An already sorted purse stays as it is ----

  lemma {:induction false} InsertLast(a: seq<u64>, order: seq<nat>, x: nat)
    requires Positions(a, order) && x < |a| && forall i :: 0 <= i < |order| ==> a[order[i]] >= a[x]
    ensures Insert(a, order, x) == order + [x]
  {
    if order != [] {
      InsertLast(a, order[1..], x);
      assert order == [order[0]] + order[1..];
    } else {
      assert Insert(a, order, x) == [x];
    }
  }

  lemma {:induction false} OrderIsIdentity(a: seq<u64>, n: nat)
    requires Descends(a) && n <= |a|
    ensures forall i :: 0 <= i < n ==> OrderOf(a, n)[i] == i
  {
    hide Insert;
    if n == 0 {
      assert OrderOf(a, n) == [];
    } else {
      OrderIsIdentity(a, n - 1);
      InsertLast(a, OrderOf(a, n - 1), n - 1);
    }
  }

  lemma SortedStays(a: seq<u64>)
    requires Descends(a)
    ensures At(a, Descending(a)) == a
  {
    OrderIsIdentity(a, |a|);
  }

  // ---- The search ----

  // Coins that are all too large are passed over without counting.
  lemma {:induction false} TooLarge(a: seq<u64>, suffix: seq<u64>, i: nat, last: Option<u64>, remaining: u64,
                                    nodes: nat)
    requires i <= |a| < |suffix| && forall j :: i <= j < |a| ==> a[j] > remaining
    ensures Scan(a, suffix, i, last, remaining, nodes) == (None, nodes)
    decreases |a| - i
  {
    if i == |a| {
      assert Scan(a, suffix, i, last, remaining, nodes) == (None, nodes);
    } else {
      TooLarge(a, suffix, i + 1, Some(a[i]), remaining, nodes);
    }
  }

  // Every bait costs one node and leads nowhere; when the good pair is reached, the cap is.
  lemma {:induction false} BaitIsCounted(suffix: seq<u64>, i: nat, last: Option<u64>)
    requires i <= BAIT && |suffix| > BAIT + 2 && last == if i == 0 then None else Some(Purse()[i - 1])
    ensures Scan(Purse(), suffix, i, last, TARGET, i) == (None, BAIT + 2)
    decreases BAIT - i
  {
    var a := Purse();
    if i == BAIT {
      PairIsMissed(suffix, last);
    } else {
      var left := TARGET - a[i];
      assert left == i + 1;
      TooLarge(a, suffix, i + 1, None, left, i + 1);
      assert Search(a, suffix, i + 1, left, i + 1) == (None, i + 1);
      BaitIsCounted(suffix, i + 1, Some(a[i]));
    }
  }

  lemma PairIsMissed(suffix: seq<u64>, last: Option<u64>)
    requires |suffix| > BAIT + 2 && last == Some(Purse()[BAIT - 1])
    ensures Scan(Purse(), suffix, BAIT, last, TARGET, BAIT) == (None, BAIT + 2)
  {
    var a := Purse();
    assert Search(a, suffix, BAIT + 1, TARGET - a[BAIT], BAIT + 1) == (None, BAIT + 1);
    assert Search(a, suffix, BAIT + 2, TARGET - a[BAIT + 1], BAIT + 2) == (None, BAIT + 2);
    assert Scan(a, suffix, BAIT + 2, Some(a[BAIT + 1]), TARGET, BAIT + 2) == (None, BAIT + 2);
    assert Scan(a, suffix, BAIT + 1, Some(a[BAIT]), TARGET, BAIT + 1) == (None, BAIT + 2);
  }

  lemma EnoughInAll(a: seq<u64>, amount: u64)
    requires |a| >= 2 && a[0] + a[1] >= amount
    ensures SuffixesOf(a)[0] >= amount
  {
    assert a[0..] == a && a[1..][0] == a[1];
    assert Sum(a) == a[0] + (a[1] + Sum(a[1..][1..]));
  }

  lemma PairIsWorthIt()
    ensures !NoSubset(Purse(), TARGET)
  {
    var a, S: set<nat> := Purse(), {BAIT, BAIT + 1};
    SumAtRemove(a, S, BAIT);
    assert S - {BAIT} == {BAIT + 1};
    SumAtRemove(a, {BAIT + 1}, BAIT + 1);
    assert {BAIT + 1} - {BAIT + 1} == {};
    assert SumAt(a, S) == TARGET;
  }

  /** The search ends without a pick, two nodes past the cap, although the purse holds the amount exactly. */
  lemma NoneIsWrongPastTheCap()
    ensures Ends(Purse(), TARGET) == (false, NODE_CAP + 2)
    ensures !NoSubset(Purse(), TARGET) && !WithinCap(Purse())
  {
    hide Search, SuffixesOf, Purse, NoSubset, WithinCap;
    var a := Purse();
    SearchMisses();
    SortedEnds(a, TARGET);
    PairIsWorthIt();
    TooManyHands(a);
  }

  lemma SearchMisses()
    ensures Descends(Purse()) && Search(Purse(), SuffixesOf(Purse()), 0, TARGET, 0) == (None, NODE_CAP + 2)
  {
    hide Scan, SuffixesOf;
    EnoughInAll(Purse(), TARGET);
    BaitIsCounted(SuffixesOf(Purse()), 0, None);
  }

  lemma SortedEnds(a: seq<u64>, amount: u64)
    requires Descends(a)
    ensures var (hit, nodes) := Search(a, SuffixesOf(a), 0, amount, 0);
            Ends(a, amount) == (hit.Some?, nodes)
  {
    hide Search, SuffixesOf;
    SortedStays(a);
  }

  // The nodes counted stay below the number of hands, so there are more hands than the cap.
  lemma TooManyHands(a: seq<u64>)
    requires Ends(a, TARGET).1 > NODE_CAP
    ensures !WithinCap(a)
  {
    var sorted := At(a, Descending(a));
    SortedHands(a);
    SearchCountsHands(sorted, SuffixesOf(sorted), 0, TARGET, 0);
  }
}
