/** The power-of-two split of an amount (cashu-core-lite/src/nuts/nut00.rs, `decompose_amount`). */
module Denominations {
  import opened Amounts

  lemma {:induction false} Pow2Bound(k: nat)
    requires k <= 63
    ensures Pow2(k) <= U64_MAX
    decreases 63 - k
  {
    if k < 63 {
      Pow2Bound(k + 1);
    } else {
      U64Below();
    }
  }

  // The powers of two below 2^k that make up `rest`, largest first.
  function Split(rest: nat, k: nat): (r: seq<u64>)
    requires k <= 64
    ensures |r| <= k
  {
    if k == 0 then []
    else
      Pow2Bound(k - 1);
      var d := Pow2(k - 1);
      if d <= rest then [d] + Split(rest - d, k - 1) else Split(rest, k - 1)
  }

  function Decomposed(amount: u64): (r: seq<u64>)
    ensures |r| <= 64
  {
    Split(amount, 64)
  }

  lemma {:induction false} SplitSums(rest: nat, k: nat)
    requires k <= 64 && rest < Pow2(k)
    ensures Sum(Split(rest, k)) == rest
  {
    if k > 0 {
      var d := Pow2(k - 1);
      if d <= rest {
        SplitSums(rest - d, k - 1);
        Pow2Bound(k - 1);
        assert Split(rest, k)[1..] == Split(rest - d, k - 1);
      } else {
        SplitSums(rest, k - 1);
      }
    }
  }

  lemma U64Below()
    ensures Pow2(64) == U64_MAX + 1
  {
    assert Pow2(8) == 0x100;
    assert Pow2(16) == 0x10000;
    assert Pow2(24) == 0x1000000;
    assert Pow2(32) == 0x100000000;
    assert Pow2(40) == 0x10000000000;
    assert Pow2(48) == 0x1000000000000;
    assert Pow2(56) == 0x100000000000000;
    assert Pow2(64) == U64_MAX + 1;
  }

  /** An amount is split into at most 64 outputs that add up to it. */
  lemma DecomposedSums(amount: u64)
    ensures Sum(Decomposed(amount)) == amount && |Decomposed(amount)| <= 64
    ensures Decomposed(amount) == [] <==> amount == 0
  {
    U64Below();
    SplitSums(amount, 64);
    if amount == 0 {
      SplitZero(64);
    }
  }

  // A power of two below 2^k.
  ghost predicate PowerBelow(x: nat, k: nat) { exists j :: 0 <= j < k && x == Pow2(j) }

  // Powers of two below 2^k, each at most once, largest first.
  ghost predicate BinaryDigits(r: seq<u64>, k: nat)
  {
    && (forall i :: 0 <= i < |r| ==> PowerBelow(r[i], k))
    && (forall i, j :: 0 <= i < j < |r| ==> r[i] > r[j])
  }

  lemma PowerUp(x: nat, k: nat)
    requires PowerBelow(x, k)
    ensures PowerBelow(x, k + 1) && x < Pow2(k)
  {
    var j :| 0 <= j < k && x == Pow2(j);
    Pow2Monotone(j + 1, k);
  }

  lemma {:induction false} SplitIsBinary(rest: nat, k: nat)
    requires k <= 64
    ensures BinaryDigits(Split(rest, k), k)
  {
    if k > 0 {
      var d := Pow2(k - 1);
      var tail := Split(if d <= rest then rest - d else rest, k - 1);
      SplitIsBinary(if d <= rest then rest - d else rest, k - 1);
      forall i | 0 <= i < |tail| ensures PowerBelow(tail[i], k) && tail[i] < d {
        PowerUp(tail[i], k - 1);
      }
      assert PowerBelow(d, k);
    }
  }

  /** The outputs are powers of two, each at most once, largest first: the binary digits of the amount. */
  lemma DecomposedIsBinary(amount: u64)
    ensures Sum(Decomposed(amount)) == amount && BinaryDigits(Decomposed(amount), 64)
  {
    DecomposedSums(amount);
    SplitIsBinary(amount, 64);
  }

  lemma {:induction false} SplitZero(k: nat)
    requires k <= 64
    ensures Split(0, k) == []
  {
    if k == 0 {
    } else {
      SplitZero(k - 1);
    }
  }

  lemma {:induction false} SplitSkips(rest: nat, j: nat, k: nat)
    requires j <= k <= 64 && rest < Pow2(j)
    ensures Split(rest, k) == Split(rest, j)
  {
    if j == k {
    } else {
      Pow2Monotone(j, k - 1);
      SplitSkips(rest, j, k - 1);
    }
  }

  /** The two loops of the source: find the largest power, then take powers greedily. */
  method DecomposeAmount(amount: u64) returns (result: seq<u64>)
    ensures result == Decomposed(amount)
  {
    if amount == 0 {
      SplitZero(64);
      return [];
    }
    var denomination, k := LargestPower(amount);
    SplitSkips(amount, k, 64);
    result := [];
    var remaining: nat := amount;
    while denomination > 0
      invariant 0 <= k <= 64 && denomination == if k == 0 then 0 else Pow2(k - 1)
      invariant result + Split(remaining, k) == Decomposed(amount)
      decreases k
    {
      hide Decomposed;
      Pow2Bound(k - 1);
      if denomination <= remaining {
        assert result + ([denomination] + Split(remaining - denomination, k - 1)) ==
               (result + [denomination]) + Split(remaining - denomination, k - 1);
        result := result + [denomination];
        remaining := remaining - denomination;
      }
      denomination := denomination / 2;
      k := k - 1;
    }
  }

  // The first loop: double while the amount allows it.
  method LargestPower(amount: u64) returns (denomination: nat, ghost k: nat)
    requires amount > 0
    ensures 0 < k <= 64 && denomination == Pow2(k - 1) && amount < Pow2(k)
  {
    denomination, k := 1, 1;
    U64Below();
    while denomination <= amount / 2
      invariant 0 < k <= 64 && denomination == Pow2(k - 1) <= amount
      decreases amount - denomination
    {
      denomination := denomination * 2;
      k := k + 1;
      if k > 64 {
        Pow2Monotone(64, k - 1);
      }
    }
  }
}
