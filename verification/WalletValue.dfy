/** Value conservation of the persistent wallet: what spending, undoing and melting do to the proofs held. */
module WalletValue {
  import opened Results
  import opened Amounts
  import opened Ecash
  import opened Selection
  import opened Wallet
  import opened WalletRecovery
  import Denominations
  import PersistentWallets

  // ---- Removing by value ----

  lemma {:induction false} WithoutCounts(ps: Proofs, sel: Proofs, p: Proof<Point>)
    ensures multiset(Without(ps, sel))[p] == if p in sel then 0 else multiset(ps)[p]
  {
    if ps == [] {
    } else {
      WithoutCounts(ps[1..], sel, p);
      assert ps == [ps[0]] + ps[1..];
    }
  }

  /** Exactly when removing by value conserves: every copy of a selected proof must be selected. */
  lemma RemovalConservesIff(ps: Proofs, sel: Proofs)
    ensures multiset(ps) == multiset(Without(ps, sel)) + multiset(sel) <==>
            forall p :: p in sel ==> multiset(ps)[p] == multiset(sel)[p]
  {
    var rest := multiset(Without(ps, sel));
    if forall p :: p in sel ==> multiset(ps)[p] == multiset(sel)[p] {
      forall p ensures multiset(ps)[p] == rest[p] + multiset(sel)[p] {
        WithoutCounts(ps, sel, p);
        assert p in sel <==> p in multiset(sel);
      }
      assert multiset(ps) == rest + multiset(sel);
    }
    if multiset(ps) == rest + multiset(sel) {
      forall p | p in sel ensures multiset(ps)[p] == multiset(sel)[p] {
        WithoutCounts(ps, sel, p);
        assert multiset(ps)[p] == (rest + multiset(sel))[p];
      }
    }
  }

  // No proof is held twice; proofs that share a secret may differ otherwise.
  ghost predicate DistinctProofs(ps: Proofs)
  {
    forall i, j :: 0 <= i < j < |ps| ==> ps[i] != ps[j]
  }

  // No proof that is worth something is held twice.
  ghost predicate ValuedOnce(ps: Proofs)
  {
    forall p :: p in ps && p.amount > 0 ==> multiset(ps)[p] == 1
  }

  lemma {:induction false} DistinctCounts(ps: Proofs, p: Proof<Point>)
    requires DistinctProofs(ps) && p in ps
    ensures multiset(ps)[p] == 1
  {
    var rest := ps[1..];
    assert ps == [ps[0]] + rest;
    assert multiset(ps) == multiset{ps[0]} + multiset(rest);
    RestDistinct(ps);
    hide DistinctProofs;
    if p in rest {
      DistinctCounts(rest, p);
    }
  }

  lemma RestDistinct(ps: Proofs)
    requires DistinctProofs(ps) && ps != []
    ensures DistinctProofs(ps[1..]) && ps[0] !in ps[1..]
  {
    assert forall i :: 0 <= i < |ps| - 1 ==> ps[1..][i] == ps[i + 1];
  }

  /** Pairwise distinct proofs are enough for everything below, and so, all the more, are distinct secrets. */
  lemma DistinctIsEnough(ps: Proofs)
    requires DistinctProofs(ps) || DistinctSecrets(ps)
    ensures ValuedOnce(ps)
  {
    assert DistinctProofs(ps);
    forall p | p in ps && p.amount > 0 ensures multiset(ps)[p] == 1 {
      DistinctCounts(ps, p);
    }
  }

  // ---- What is selected ----

  // The proofs, largest first.
  function Sorted(ps: Proofs): (r: Proofs)
    ensures |r| == |ps| && AmountsOf(r) == At(AmountsOf(ps), Descending(AmountsOf(ps)))
  {
    var r := ProofsAt(ps, Descending(AmountsOf(ps)));
    assert AmountsOf(r) == At(AmountsOf(ps), Descending(AmountsOf(ps)));
    r
  }

  // The selection is a beginning of them.
  lemma SelectIsPrefix(ps: Proofs, amount: u64)
    ensures var n := Needed(AmountsOf(Sorted(ps)), amount);
            Select(ps, amount) == Sorted(ps)[..n]
  {
  }

  lemma SortedIsSame(ps: Proofs)
    ensures Sum(AmountsOf(Sorted(ps))) == Balance(ps)
    ensures forall p :: p in Sorted(ps) <==> p in ps
    ensures forall i, j :: 0 <= i < j < |ps| ==> Sorted(ps)[i].amount >= Sorted(ps)[j].amount
  {
    var a := AmountsOf(ps);
    var order, r := Descending(a), Sorted(ps);
    DescendingIsDescending(a);
    SortedSum(a, order);
    forall p | p in ps ensures p in r {
      var x: nat :| x < |ps| && ps[x] == p;
      assert x in order;
      var k :| 0 <= k < |order| && order[k] == x;
      assert r[k] == p;
    }
    forall i, j | 0 <= i < j < |ps| ensures r[i].amount >= r[j].amount {
      assert Before(a, order[i], order[j]);
    }
  }

  lemma SelectCovers(ps: Proofs, amount: u64)
    requires Balance(ps) >= amount
    ensures multiset(Select(ps, amount)) <= multiset(ps) && Balance(Select(ps, amount)) >= amount
  {
    var a := AmountsOf(ps);
    LargestIsOptimal(a, amount);
    var r := Largest(a, amount);
    assert AmountsOf(Select(ps, amount)) == At(a, r);
    PersistentWallets.DistinctPositions(ps, r);
  }

  // Everything after a worthless amount is worthless.
  lemma {:induction false} WorthlessTail(s: seq<u64>, j: nat)
    requires j <= |s| && forall i :: j <= i < |s| ==> s[i] == 0
    ensures Sum(s) == Sum(s[..j])
    decreases |s| - j
  {
    if j == |s| {
      assert s[..j] == s;
    } else {
      WorthlessTail(s, j + 1);
      PrefixSum(s, j);
    }
  }

  // No worthless proof is selected: the ones before it cover the amount already.
  lemma SelectedAreValued(ps: Proofs, amount: u64, p: Proof<Point>)
    requires Balance(ps) >= amount && p in Select(ps, amount)
    ensures p.amount > 0
  {
    var r := Sorted(ps);
    var s := AmountsOf(r);
    SelectIsPrefix(ps, amount);
    SortedIsSame(ps);
    NeededIsLeast(s, amount);
    var n := Needed(s, amount);
    var j :| 0 <= j < n && r[..n][j] == p;
    if p.amount == 0 {
      WorthlessTail(s, j);
      assert false;
    }
  }

  lemma SelectionSplits(ps: Proofs, amount: u64)
    requires ValuedOnce(ps) && Balance(ps) >= amount
    ensures multiset(ps) == multiset(Without(ps, Select(ps, amount))) + multiset(Select(ps, amount))
  {
    hide Select, Without, Balance;
    var sel := Select(ps, amount);
    SelectCovers(ps, amount);
    forall p | p in sel ensures multiset(ps)[p] == multiset(sel)[p] {
      SelectedAreValued(ps, amount, p);
      assert p in multiset(sel) && p in multiset(ps) && p in ps;
    }
    RemovalConservesIff(ps, sel);
  }

  // ---- A proof held twice ----

  lemma FirstCopy(r: Proofs, p: Proof<Point>) returns (j: nat)
    requires p in r
    ensures j < |r| && r[j] == p && p !in r[..j]
  {
    j := 0;
    while r[j] != p
      invariant 0 <= j < |r| && p !in r[..j] && p in r[j..]
      decreases |r| - j
    {
      assert r[..j + 1] == r[..j] + [r[j]];
      assert r[j..] == [r[j]] + r[j + 1..];
      j := j + 1;
    }
  }

  // The amount that the descending order reaches with position j is covered by exactly that beginning.
  lemma CutAfter(s: seq<u64>, j: nat)
    requires j < |s| && s[j] > 0 && Sum(s[..j + 1]) <= U64_MAX
    ensures Needed(s, Sum(s[..j + 1])) == j + 1 && 0 < Sum(s[..j + 1]) <= Sum(s)
  {
    var amount := Sum(s[..j + 1]);
    PrefixSum(s, j);
    PrefixMonotone(s, j + 1, |s|);
    assert s[..|s|] == s;
    NeededIsLeast(s, amount);
    forall i | 0 <= i <= j ensures Sum(s[..i]) < amount {
      PrefixMonotone(s, i, j);
    }
  }

  /** Holding a proof of value twice breaks conservation, whatever else is held: some spend hands out one copy and loses
      all the others. */
  lemma DuplicateIsLost(env: Env, s: State, p: Proof<Point>) returns (amount: u64)
    requires Balance(s.proofs) <= U64_MAX && p.amount > 0 && multiset(s.proofs)[p] >= 2
    ensures 0 < amount <= Balance(s.proofs)
    ensures var (t, r) := Spend(env, s, amount, Saved);
            r.Done? && multiset(r.value)[p] == 1 && multiset(t.proofs)[p] == 0
  {
    var ps := s.proofs;
    amount := CutAtFirstCopy(ps, p);
    hide Select, Balance;
    WithoutCounts(ps, Select(ps, amount), p);
    assert p in multiset(Select(ps, amount));
  }

  lemma CutAtFirstCopy(ps: Proofs, p: Proof<Point>) returns (amount: u64)
    requires Balance(ps) <= U64_MAX && p.amount > 0 && p in ps
    ensures 0 < amount <= Balance(ps) && multiset(Select(ps, amount))[p] == 1
  {
    var r := Sorted(ps);
    var a := AmountsOf(r);
    SortedIsSame(ps);
    var j := FirstCopy(r, p);
    PrefixMonotone(a, j + 1, |a|);
    assert a[..|a|] == a;
    CutAfter(a, j);
    amount := Sum(a[..j + 1]);
    SelectIsPrefix(ps, amount);
    assert r[..j + 1] == r[..j] + [p];
    assert p !in multiset(r[..j]);
  }

  // This spend splits the proofs held into those kept and those handed out.
  ghost predicate SpendConserves(env: Env, s: State, amount: u64)
  {
    var (t, r) := Spend(env, s, amount, Saved);
    r.Done? && multiset(s.proofs) == multiset(t.proofs) + multiset(r.value)
  }

  /** Exactly when spending conserves: every spend within the balance does, if and only if no proof of value is held
      twice. */
  lemma SpendConservesIff(env: Env, s: State)
    requires Balance(s.proofs) <= U64_MAX
    ensures (forall amount: u64 :: 0 < amount <= Balance(s.proofs) ==> SpendConserves(env, s, amount)) <==>
            ValuedOnce(s.proofs)
  {
    hide Balance, Select, Without;
    if ValuedOnce(s.proofs) {
      forall amount: u64 | 0 < amount <= Balance(s.proofs) ensures SpendConserves(env, s, amount) {
        SelectionSplits(s.proofs, amount);
      }
    }
    if forall amount: u64 :: 0 < amount <= Balance(s.proofs) ==> SpendConserves(env, s, amount) {
      forall p | p in s.proofs && p.amount > 0 ensures multiset(s.proofs)[p] == 1 {
        ConservedOnce(env, s, p);
      }
    }
  }

  lemma ConservedOnce(env: Env, s: State, p: Proof<Point>)
    requires Balance(s.proofs) <= U64_MAX && p in s.proofs && p.amount > 0
    requires forall amount: u64 :: 0 < amount <= Balance(s.proofs) ==> SpendConserves(env, s, amount)
    ensures multiset(s.proofs)[p] == 1
  {
    hide Balance, Select;
    assert p in multiset(s.proofs);
    if multiset(s.proofs)[p] >= 2 {
      var amount := DuplicateIsLost(env, s, p);
      assert SpendConserves(env, s, amount);
      var (t, r) := Spend(env, s, amount, Saved);
      assert multiset(s.proofs)[p] == (multiset(t.proofs) + multiset(r.value))[p];
    }
  }

  // ---- Balances ----

  lemma BalanceConcat(a: Proofs, b: Proofs)
    ensures Balance(a + b) == Balance(a) + Balance(b)
  {
    assert AmountsOf(a + b) == AmountsOf(a) + AmountsOf(b);
    SumConcat(AmountsOf(a), AmountsOf(b));
  }

  lemma BalanceOne(p: Proof<Point>)
    ensures Balance([p]) == p.amount
  {
    var a := AmountsOf([p]);
    assert a == [p.amount] && a[1..] == [];
    assert Sum(a) == a[0] + Sum(a[1..]);
  }

  function Dropped(b: Proofs, k: nat): Proofs
    requires k < |b|
  {
    b[..k] + b[k + 1..]
  }

  lemma TakenOut(b: Proofs, k: nat)
    requires k < |b|
    ensures multiset(b) == multiset(Dropped(b, k)) + multiset{b[k]} &&
            Balance(b) == b[k].amount + Balance(Dropped(b, k))
  {
    hide Balance;
    assert b == b[..k] + [b[k]] + b[k + 1..];
    BalanceAround(b[..k], b[k], b[k + 1..]);
  }

  lemma DropFirst(a: Proofs)
    requires a != []
    ensures Dropped(a, 0) == a[1..]
  {
  }

  lemma CancelOne(m: multiset<Proof<Point>>, n: multiset<Proof<Point>>, x: Proof<Point>)
    requires m + multiset{x} == n + multiset{x}
    ensures m == n
  {
    assert m == (m + multiset{x}) - multiset{x};
    assert n == (n + multiset{x}) - multiset{x};
  }

  lemma Found(a: Proofs, b: Proofs) returns (k: nat)
    requires multiset(a) == multiset(b) && a != []
    ensures k < |b| && b[k] == a[0]
  {
    assert a[0] in multiset(a);
    assert a[0] in b;
    k :| 0 <= k < |b| && b[k] == a[0];
  }

  // The same proof taken out of both lists.
  lemma Matched(a: Proofs, b: Proofs) returns (rest: Proofs)
    requires multiset(a) == multiset(b) && a != []
    ensures multiset(a[1..]) == multiset(rest)
    ensures Balance(a) == a[0].amount + Balance(a[1..]) && Balance(b) == a[0].amount + Balance(rest)
  {
    hide Balance;
    var k := Found(a, b);
    rest := Dropped(b, k);
    hide Dropped;
    TakenOut(a, 0);
    TakenOut(b, k);
    DropFirst(a);
    CancelOne(multiset(a[1..]), multiset(rest), a[0]);
  }

  /** The balance depends only on the multiset of proofs. */
  lemma {:induction false} BalanceOfMultiset(a: Proofs, b: Proofs)
    requires multiset(a) == multiset(b)
    ensures Balance(a) == Balance(b)
  {
    if a == [] {
      assert |multiset(b)| == 0;
      assert b == [];
    } else {
      hide Balance;
      var rest := Matched(a, b);
      BalanceOfMultiset(a[1..], rest);
    }
  }

  lemma BalanceAround(a: Proofs, x: Proof<Point>, b: Proofs)
    ensures Balance(a + [x] + b) == x.amount + Balance(a + b)
  {
    BalanceConcat(a + [x], b);
    BalanceConcat(a, [x]);
    BalanceConcat(a, b);
    BalanceOne(x);
  }

  lemma SplitBalance(ps: Proofs, rest: Proofs, sel: Proofs)
    requires multiset(ps) == multiset(rest) + multiset(sel)
    ensures Balance(ps) == Balance(rest) + Balance(sel)
  {
    assert multiset(rest + sel) == multiset(rest) + multiset(sel);
    BalanceOfMultiset(ps, rest + sel);
    BalanceConcat(rest, sel);
  }

  // ---- The operations ----

  /** Spending splits the proofs exactly into those kept and those handed out, which cover the amount with as
      few proofs as possible. */
  lemma SpendSplits(env: Env, s: State, amount: u64, save: Save)
    requires ValuedOnce(s.proofs) && Spend(env, s, amount, save).1.Done?
    ensures var (t, r) := Spend(env, s, amount, save);
            && multiset(s.proofs) == multiset(t.proofs) + multiset(r.value)
            && Balance(s.proofs) == Balance(t.proofs) + Balance(r.value)
            && Balance(r.value) >= amount
            && (forall S: set<nat> | (forall x :: x in S ==> x < |s.proofs|) ::
                  SumAt(AmountsOf(s.proofs), S) >= amount ==> |r.value| <= |S|)
            && t.counter == s.counter
  {
    hide ValuedOnce, Without;
    SelectCovers(s.proofs, amount);
    SelectionSplits(s.proofs, amount);
    LargestIsOptimal(AmountsOf(s.proofs), amount);
    SplitBalance(s.proofs, Spend(env, s, amount, save).0.proofs, Select(s.proofs, amount));
  }

  // What a credited request adds: one proof per amount asked for, from the indices at the counter.
  lemma CreditAdds(env: Env, s: State, amounts: seq<u64>, ks: KeysetText, keys: Keys,
                   reply: Result<seq<Signature>, Error>, save: Save)
    requires Credit(env, s, amounts, ks, keys, reply, save).1.Done?
    ensures var (t, r) := Credit(env, s, amounts, ks, keys, reply, save);
            && t.proofs == s.proofs + r.value && AmountsOf(r.value) == amounts
            && FreshFrom(Named(env, ks), s.counter, r.value)
            && Balance(t.proofs) == Balance(s.proofs) + Sum(amounts)
            && t.counter == Advance(s.counter, |amounts|)
  {
    hide Balance, Credit, UnblindAll, FreshFrom, AmountsOf, Sum, Outputs, Advance;
    var (t, r) := Credit(env, s, amounts, ks, keys, reply, save);
    CreditShape(env, s, amounts, ks, keys, reply, save);
    UnblindedAmounts(env, s.counter, amounts, ks, reply.value, keys);
    BalanceConcat(s.proofs, r.value);
    BalanceIs(r.value);
  }

  lemma CreditShape(env: Env, s: State, amounts: seq<u64>, ks: KeysetText, keys: Keys,
                    reply: Result<seq<Signature>, Error>, save: Save)
    requires Credit(env, s, amounts, ks, keys, reply, save).1.Done?
    ensures reply.Ok? && |reply.value| == |amounts|
    ensures var (t, r) := Credit(env, s, amounts, ks, keys, reply, save);
            && UnblindAll(env.unblind, Outputs(env, s.counter, amounts, ks), reply.value, keys) == Ok(r.value)
            && t.proofs == s.proofs + r.value && t.counter == Advance(s.counter, |amounts|)
  {
    hide AllVerified, FirstFault, Derivable, UnblindAll, Outputs, Advance, Persist;
    var ps := UnblindAll(env.unblind, Outputs(env, s.counter, amounts, ks), reply.value, keys).value;
    var u := s.(counter := Advance(s.counter, |amounts|), proofs := s.proofs + ps);
    assert Credit(env, s, amounts, ks, keys, reply, save) == Finish(env, u, save, ps);
    PersistKeeps(env, u, save);
  }

  lemma PersistKeeps(env: Env, s: State, save: Save)
    ensures Persist(env, s, save).proofs == s.proofs && Persist(env, s, save).counter == s.counter
  {
  }

  lemma UnblindedAmounts(env: Env, counter: nat, amounts: seq<u64>, ks: KeysetText, sigs: seq<Signature>, keys: Keys)
    requires |sigs| == |amounts|
    ensures var r := UnblindAll(env.unblind, Outputs(env, counter, amounts, ks), sigs, keys);
            r.Ok? ==> AmountsOf(r.value) == amounts && FreshFrom(Named(env, ks), counter, r.value)
  {
    var pending := Outputs(env, counter, amounts, ks);
    var r := UnblindAll(env.unblind, pending, sigs, keys);
    if r.Ok? {
      hide UnblindAll, KeyFor;
      forall i | 0 <= i < |amounts|
        ensures r.value[i].amount == amounts[i] && r.value[i].secret == Derived(Named(env, ks), Index(counter + i))
      {
        assert UnblindOne(env.unblind, pending[i], pending[i].amount, sigs[i], keys) == Ok(r.value[i]);
      }
    }
  }

  lemma BalanceIs(ps: Proofs)
    ensures Balance(ps) == Sum(AmountsOf(ps))
  {
  }

  /** A mint that finishes credits exactly the amount asked for. */
  lemma MintCredits(env: Env, s: State, amount: u64, ks: KeysetText, keys: Keys, reply: Result<seq<Signature>, Error>,
                    save: Save)
    requires Mint(env, s, amount, ks, keys, reply, save).1.Done?
    ensures var (t, r) := Mint(env, s, amount, ks, keys, reply, save);
            r.value == amount && Balance(t.proofs) == Balance(s.proofs) + amount && s.proofs <= t.proofs
  {
    hide Balance, Credit;
    CreditAdds(env, s, Denominations.Decomposed(amount), ks, keys, reply, save);
    Denominations.DecomposedSums(amount);
    BalanceIs(Credit(env, s, Denominations.Decomposed(amount), ks, keys, reply, save).1.value);
  }

  /** A swap that finishes returns, and credits, proofs of exactly the amounts asked for, in that order. */
  lemma SwapCredits(env: Env, s: State, amounts: seq<u64>, ks: KeysetText, keys: Keys,
                    reply: Result<seq<Signature>, Error>, save: Save)
    requires Swap(env, s, amounts, ks, keys, reply, save).1.Done?
    ensures var (t, r) := Swap(env, s, amounts, ks, keys, reply, save);
            && t.proofs == s.proofs + r.value && AmountsOf(r.value) == amounts
            && Balance(t.proofs) == Balance(s.proofs) + Sum(amounts)
  {
    hide Balance, Credit;
    CreditAdds(env, s, amounts, ks, keys, reply, save);
  }

  /** Exactly when a spend is refused, and why; a refused one changes nothing. */
  lemma SpendRefusedIff(env: Env, s: State, amount: u64, save: Save)
    ensures var (t, r) := Spend(env, s, amount, save);
            && (r == Refused(InvalidAmount) <==> amount == 0)
            && (r == Refused(InsufficientInputs) <==> Balance(s.proofs) < amount)
            && (r.Refused? ==> t == s && (amount == 0 || Balance(s.proofs) < amount))
  {
    hide Balance;
  }

  /** Exactly when a mint or swap is refused before the mint is asked, and a melt before any output is derived. */
  lemma RefusedUnasked(env: Env, s: State, amount: u64, amounts: seq<u64>, invoice: u64, fee: u64, ks: KeysetText,
                       keys: Keys, sigs: Result<seq<Signature>, Error>, answer: Result<MeltReply, Error>, save: Save)
    ensures amount == 0 ==> Mint(env, s, amount, ks, keys, sigs, save) == (s, Refused(InvalidAmount))
    ensures amounts == [] ==> Swap(env, s, amounts, ks, keys, sigs, save) == (s, Refused(InvalidAmount))
    ensures invoice + fee > U64_MAX || invoice + fee == 0 ==>
              Melt(env, s, invoice, fee, ks, keys, answer, save) == (s, Refused(InvalidAmount))
    ensures 0 < invoice + fee <= U64_MAX && Balance(s.proofs) < invoice + fee ==>
              Melt(env, s, invoice, fee, ks, keys, answer, save) == (s, Refused(InsufficientInputs))
  {
    hide Balance, Denominations.Decomposed;
    Denominations.DecomposedSums(amount);
  }

  /** How a mint or swap is refused before its answer is looked at: an id that does not decode or an index without a
      blinder leaves everything as it was; an error from the mint, or an answer of the wrong length, moves the counter
      past the outputs asked for. */
  lemma CreditRefusals(env: Env, s: State, amounts: seq<u64>, ks: KeysetText, keys: Keys,
                       reply: Result<seq<Signature>, Error>, save: Save)
    requires amounts != []
    ensures var result := Credit(env, s, amounts, ks, keys, reply, save);
            var moved := s.(counter := if s.counter + |amounts| <= 0xFFFF_FFFF then s.counter + |amounts|
                                       else 0xFFFF_FFFF);
            if env.decodeId(ks).None? then result == (s, Refused(Protocol))
            else if exists i :: s.counter <= i < s.counter + |amounts|
                                && !env.derivable(env.decodeId(ks).value, Index(i)) then result == (s, Refused(Crypto))
            else if reply.Err? then result == (moved, Refused(reply.error))
            else |reply.value| != |amounts| ==> result == (moved, Refused(Protocol))
  {
    hide UnblindAll, AllVerified, FirstFault, Outputs, Index;
    if env.decodeId(ks).Some? {
      assert Named(env, ks) == env.decodeId(ks).value;
    }
  }

  /** Removing takes every copy of the listed proofs out, and nothing else. */
  lemma RemoveTakesOut(env: Env, s: State, ps: Proofs, save: Save, p: Proof<Point>)
    ensures var t := Remove(env, s, ps, save).0;
            multiset(t.proofs)[p] == (if p in ps then 0 else multiset(s.proofs)[p]) && t.counter == s.counter
  {
    WithoutCounts(s.proofs, ps, p);
  }

  /** Undoing a spend gives back the same proofs, and is admissible in an orderly wallet. */
  lemma SpendThenUndo(env: Env, s: State, amount: u64, save: Save, save': Save)
    requires ValuedOnce(s.proofs) && Spend(env, s, amount, save).1.Done?
    ensures var (t, r) := Spend(env, s, amount, save);
            && multiset(Add(env, t, r.value, save').0.proofs) == multiset(s.proofs)
            && (Orderly(s.counter, s.proofs) ==> Orderly(t.counter, t.proofs + r.value))
  {
    SpendSplits(env, s, amount, save);
    var (t, r) := Spend(env, s, amount, save);
    if Orderly(s.counter, s.proofs) {
      SamePermutation(s.counter, s.proofs, t.proofs + r.value);
    }
  }

  // Orderliness depends only on the multiset.
  lemma SamePermutation(counter: nat, a: Proofs, b: Proofs)
    requires Orderly(counter, a) && multiset(a) == multiset(b)
    ensures Orderly(counter, b)
  {
    forall i | 0 <= i < |b| ensures b[i] in a {
      assert b[i] in multiset(a);
    }
    forall i, j | 0 <= i < j < |b| ensures b[i].secret != b[j].secret {
      if b[i] == b[j] {
        DistinctCounts(a, b[i]);
        TwiceCounts(b, i, j);
      } else {
        var k :| 0 <= k < |a| && a[k] == b[i];
        var l :| 0 <= l < |a| && a[l] == b[j];
      }
    }
  }

  lemma TwiceCounts(b: Proofs, i: nat, j: nat)
    requires i < j < |b| && b[i] == b[j]
    ensures multiset(b)[b[i]] >= 2
  {
    assert b == b[..j] + [b[j]] + b[j + 1..];
    assert b[..j] == b[..i] + [b[i]] + b[i + 1..j];
  }

  /** An unpaid melt keeps every proof; a paid one exchanges the selected inputs for the change. */
  lemma MeltConserves(env: Env, s: State, invoice: u64, fee: u64, ks: KeysetText, keys: Keys,
                      answer: Result<MeltReply, Error>, save: Save)
    requires ValuedOnce(s.proofs) && Melt(env, s, invoice, fee, ks, keys, answer, save).1.Done?
    ensures invoice + fee <= U64_MAX
    ensures var (t, r) := Melt(env, s, invoice, fee, ks, keys, answer, save);
            if r.value.paid
            then Balance(t.proofs) + Balance(Select(s.proofs, invoice + fee)) == Balance(s.proofs) + r.value.change
                 && Balance(Select(s.proofs, invoice + fee)) >= invoice + fee
            else t.proofs == s.proofs && r.value.change == 0
  {
    hide ValuedOnce, Without, Select, UnblindAll, AllVerified, FirstFault, Outputs, Derivable, Balance,
         ChangeProofs;
    var needed: u64 := invoice + fee;
    var sel := Select(s.proofs, needed);
    SelectCovers(s.proofs, needed);
    SelectionSplits(s.proofs, needed);
    SplitBalance(s.proofs, Without(s.proofs, sel), sel);
    var change := if answer.Ok? && answer.value.change.Some?
                  then ChangeProofs(env, Outputs(env, s.counter, Denominations.Decomposed(fee), ks),
                    answer.value.change.value, keys)
                  else Ok([]);
    if change.Ok? {
      BalanceConcat(Without(s.proofs, sel), change.value);
    }
  }
}
