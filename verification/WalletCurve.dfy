/**
 What the proofs are that minting, swapping, melting and restoring bring in, over the blind-signature algebra: with an
 honest mint each is the mint's signature on its own secret, and restoring gives the very proofs a lost request would
 have credited (cashu-core-lite/src/persistent.rs, with cashu-core-lite/src/wallet.rs and crypto.rs).
 */
module WalletCurve {
  import opened Results
  import opened Amounts
  import opened Ecash
  import opened Wallet
  import opened WalletRecovery
  import opened WalletRestores
  import opened BlindSignatures
  import Denominations
  import WalletValue

  type Group = Curve<Point, Secret>

  // The wallet's curve calls are those of a prime-order group, and derived blinders are scalars of it.
  ghost predicate OnCurve(env: Env, g: Group)
  {
    && g.PrimeOrder()
    && (forall c, r, key :: env.unblind(c, r, key) == g.Unblind(c, r, key))
    && (forall id, i :: g.IsScalar(env.blinder(id, i)))
  }

  // The mint's key for this amount: the first one listed is the public key of k.
  ghost predicate KeyIs(g: Group, keys: Keys, amount: u64, k: nat)
  {
    g.IsScalar(k) && exists i :: FirstKey(keys, amount, i) && keys[i].pubkey == g.PublicKeyOf(k)
  }

  // The signature is the mint's, under k, on output idx of the keyset: on its secret blinded with its own blinder.
  ghost predicate SignsOutput(env: Env, g: Group, id: KeysetId, idx: nat, k: nat, sig: Signature)
  {
    var b := g.Blind(Derived(id, idx), env.blinder(id, idx));
    b.Some? && sig.c == g.Sign(k, b.value)
  }

  // The proof that output idx becomes: k times its hashed secret, with the scalars of the signature's DLEQ proof and
  // the output's own blinder.
  ghost predicate IsProofOf(env: Env, g: Group, id: KeysetId, idx: nat, amount: u64, k: nat, sig: Signature,
                            p: Proof<Point>)
  {
    && p.amount == amount && p.id == sig.id && p.secret == Derived(id, idx)
    && g.hash(p.secret).Some? && p.c == g.Mul(k, g.hash(p.secret).value)
    && g.VerifyWithPrivkey(p.secret, p.c, k) == Some(true)
    && (p.dleq.Some? <==> sig.dleq.Some?)
    && (sig.dleq.Some? ==> p.dleq.value == ProofDleq(sig.dleq.value.e, sig.dleq.value.s, env.blinder(id, idx)))
  }

  // ---- One output ----

  lemma OutputBecomesProof(env: Env, g: Group, id: KeysetId, idx: nat, pending: PendingOutput, amount: u64, k: nat,
                           sig: Signature, keys: Keys)
    requires OnCurve(env, g) && KeyIs(g, keys, amount, k) && SignsOutput(env, g, id, idx, k, sig)
    requires pending.secret == Derived(id, idx) && pending.blinder == env.blinder(id, idx)
    ensures var r := UnblindOne(env.unblind, pending, amount, sig, keys);
            r.Ok? && IsProofOf(env, g, id, idx, amount, k, sig, r.value)
  {
    hide Curve.PrimeOrder, Curve.Mul, Curve.Blind, Curve.Unblind, Curve.Sign;
    var i :| FirstKey(keys, amount, i) && keys[i].pubkey == g.PublicKeyOf(k);
    FirstKeyIsUnique(keys, amount, i);
    g.BlindSignUnblind(Derived(id, idx), env.blinder(id, idx), k);
  }

  // ---- Requests ----

  // Output i of a request, at index from + i, is asked for with this amount and answered by this signature.
  ghost predicate Signed(env: Env, g: Group, id: KeysetId, from: nat, amounts: seq<u64>, k: u64 -> nat,
                         sigs: seq<Signature>, keys: Keys)
  {
    && |sigs| == |amounts|
    && forall i :: 0 <= i < |amounts| ==>
         && KeyIs(g, keys, amounts[i], k(amounts[i]))
         && SignsOutput(env, g, id, Index(from + i), k(amounts[i]), sigs[i])
  }

  ghost predicate AreProofsOf(env: Env, g: Group, id: KeysetId, from: nat, amounts: seq<u64>, k: u64 -> nat,
                              sigs: seq<Signature>, ps: Proofs)
  {
    && |ps| == |sigs| == |amounts|
    && forall i :: 0 <= i < |ps| ==>
         IsProofOf(env, g, id, Index(from + i), amounts[i], k(amounts[i]), sigs[i], ps[i])
  }

  // Outputs at these indices, each with its own blinder.
  ghost predicate OutputsFrom(env: Env, id: KeysetId, from: nat, amounts: seq<u64>, pending: seq<PendingOutput>)
  {
    && |pending| == |amounts|
    && forall i :: 0 <= i < |pending| ==>
         var idx := Index(from + i);
         pending[i] == PendingOutput(Derived(id, idx), env.blinder(id, idx), amounts[i])
  }

  lemma {:induction false} BatchBecomesProofs(env: Env, g: Group, id: KeysetId, from: nat, amounts: seq<u64>,
                                              k: u64 -> nat, pending: seq<PendingOutput>, sigs: seq<Signature>,
                                              keys: Keys)
    requires OnCurve(env, g) && Signed(env, g, id, from, amounts, k, sigs, keys)
    requires OutputsFrom(env, id, from, amounts, pending)
    ensures var r := UnblindAll(env.unblind, pending, sigs, keys);
            r.Ok? && AreProofsOf(env, g, id, from, amounts, k, sigs, r.value)
    decreases |amounts|
  {
    hide OnCurve, KeyIs, SignsOutput, IsProofOf, UnblindOne, Index;
    if amounts == [] {
    } else {
      var idx := Index(from + 0);
      OutputBecomesProof(env, g, id, idx, pending[0], amounts[0], k(amounts[0]), sigs[0], keys);
      RestSigned(env, g, id, from, amounts, k, pending, sigs, keys);
      BatchBecomesProofs(env, g, id, from + 1, amounts[1..], k, pending[1..], sigs[1..], keys);
      var p, ps := UnblindOne(env.unblind, pending[0], amounts[0], sigs[0], keys).value,
                   UnblindAll(env.unblind, pending[1..], sigs[1..], keys).value;
      forall i | 0 <= i < |amounts|
        ensures IsProofOf(env, g, id, Index(from + i), amounts[i], k(amounts[i]), sigs[i], ([p] + ps)[i])
      {
        if i > 0 {
          assert from + i == (from + 1) + (i - 1);
        }
      }
    }
  }

  lemma RestSigned(env: Env, g: Group, id: KeysetId, from: nat, amounts: seq<u64>, k: u64 -> nat,
                   pending: seq<PendingOutput>, sigs: seq<Signature>, keys: Keys)
    requires Signed(env, g, id, from, amounts, k, sigs, keys) && OutputsFrom(env, id, from, amounts, pending)
    requires amounts != []
    ensures Signed(env, g, id, from + 1, amounts[1..], k, sigs[1..], keys)
    ensures OutputsFrom(env, id, from + 1, amounts[1..], pending[1..])
  {
    hide KeyIs, SignsOutput, Index;
    forall i | 0 <= i < |amounts| - 1
      ensures KeyIs(g, keys, amounts[1..][i], k(amounts[1..][i]))
      ensures SignsOutput(env, g, id, Index(from + 1 + i), k(amounts[1..][i]), sigs[1..][i])
      ensures pending[1..][i] == PendingOutput(Derived(id, Index(from + 1 + i)), env.blinder(id, Index(from + 1 + i)),
                                               amounts[1..][i])
    {
      var j := i + 1;
      assert from + 1 + i == from + j;
    }
  }

  ghost predicate AllChecked(env: Env, keys: Keys, ps: Proofs)
  {
    forall i :: 0 <= i < |ps| ==> CheckedUnder(env, keys, ps[i])
  }

  lemma AllCheckedIff(env: Env, keys: Keys, ps: Proofs)
    ensures AllChecked(env, keys, ps) <==> AllVerified(env, keys, ps)
  {
    hide CheckedUnder, Verified;
    forall i | 0 <= i < |ps| ensures CheckedUnder(env, keys, ps[i]) <==> Verified(env, keys, ps[i]) {
      VerifiedIffChecked(env, keys, ps[i]);
    }
  }

  /** A request that the mint signs honestly is credited: when its DLEQ proofs hold, the wallet finishes with one proof
      per amount, each the mint's signature on the secret of its own index. */
  lemma HonestRequestIsCredited(env: Env, g: Group, s: State, amounts: seq<u64>, ks: KeysetText, keys: Keys,
                                sigs: seq<Signature>, k: u64 -> nat, save: Save)
    requires OnCurve(env, g) && Derivable(env, s.counter, |amounts|, ks)
    requires Signed(env, g, Named(env, ks), s.counter, amounts, k, sigs, keys)
    requires forall ps: Proofs :: AreProofsOf(env, g, Named(env, ks), s.counter, amounts, k, sigs, ps) ==>
               AllChecked(env, keys, ps)
    ensures var (t, r) := Credit(env, s, amounts, ks, keys, Ok(sigs), save);
            && !r.Refused? && (save == Saved ==> r.Done?) && s.proofs <= t.proofs
            && var ps := t.proofs[|s.proofs|..];
               && AreProofsOf(env, g, Named(env, ks), s.counter, amounts, k, sigs, ps)
               && (r.Done? ==> r.value == ps)
  {
    hide OnCurve, Signed, AreProofsOf, AllVerified, FirstFault, UnblindAll, AllChecked, Derivable;
    var pending := Outputs(env, s.counter, amounts, ks);
    assert |sigs| == |amounts| by { SignedCount(env, g, Named(env, ks), s.counter, amounts, k, sigs, keys); }
    BatchBecomesProofs(env, g, Named(env, ks), s.counter, amounts, k, pending, sigs, keys);
    var ps := UnblindAll(env.unblind, pending, sigs, keys).value;
    AllCheckedIff(env, keys, ps);
    var t := s.(counter := Advance(s.counter, |amounts|), proofs := s.proofs + ps);
    assert Credit(env, s, amounts, ks, keys, Ok(sigs), save) == Finish(env, t, save, ps);
    assert (s.proofs + ps)[|s.proofs|..] == ps;
  }

  lemma SignedCount(env: Env, g: Group, id: KeysetId, from: nat, amounts: seq<u64>, k: u64 -> nat,
                    sigs: seq<Signature>, keys: Keys)
    requires Signed(env, g, id, from, amounts, k, sigs, keys)
    ensures |sigs| == |amounts|
  {
  }

  /** A mint that the mint signs honestly ends well: the amount is returned, and exactly it is credited. */
  lemma HonestMintSucceeds(env: Env, g: Group, s: State, amount: u64, ks: KeysetText, keys: Keys, sigs: seq<Signature>,
                           k: u64 -> nat)
    requires amount > 0 && OnCurve(env, g) && Derivable(env, s.counter, |Denominations.Decomposed(amount)|, ks)
    requires Signed(env, g, Named(env, ks), s.counter, Denominations.Decomposed(amount), k, sigs, keys)
    requires forall ps: Proofs ::
               AreProofsOf(env, g, Named(env, ks), s.counter, Denominations.Decomposed(amount), k, sigs, ps) ==>
               AllChecked(env, keys, ps)
    ensures var (t, r) := Mint(env, s, amount, ks, keys, Ok(sigs), Saved);
            r == Done(amount) && Balance(t.proofs) == Balance(s.proofs) + amount
  {
    hide OnCurve, Signed, AreProofsOf, AllChecked, Derivable, Credit, Balance;
    Denominations.DecomposedSums(amount);
    HonestRequestIsCredited(env, g, s, Denominations.Decomposed(amount), ks, keys, sigs, k, Saved);
    WalletValue.MintCredits(env, s, amount, ks, keys, Ok(sigs), Saved);
  }

  // ---- Change ----

  // The change signatures that meet a blank, and the amounts the mint chose for them.
  function Met(fee: u64, change: seq<Signature>): seq<Signature>
  {
    var n := |Denominations.Decomposed(fee)|;
    if n < |change| then change[..n] else change
  }

  function AmountsIn(sigs: seq<Signature>): seq<u64>
  {
    seq(|sigs|, i requires 0 <= i < |sigs| => sigs[i].amount)
  }

  /** Honest change of a paid melt is kept: the inputs leave, and change signature i becomes the proof of blank i, of
      the amount the mint chose. */
  lemma HonestChangeIsKept(env: Env, g: Group, s: State, invoice: u64, fee: u64, ks: KeysetText, keys: Keys,
                           change: seq<Signature>, k: u64 -> nat, save: Save)
    requires OnCurve(env, g) && MeltAskable(s, invoice, fee)
    requires Derivable(env, s.counter, |Denominations.Decomposed(fee)|, ks)
    requires Signed(env, g, Named(env, ks), s.counter, AmountsIn(Met(fee, change)), k, Met(fee, change), keys)
    requires forall ps: Proofs ::
               AreProofsOf(env, g, Named(env, ks), s.counter, AmountsIn(Met(fee, change)), k, Met(fee, change), ps) ==>
               AllChecked(env, keys, ps)
    ensures var (t, r) := Melt(env, s, invoice, fee, ks, keys, Ok(MeltReply(true, Some(change))), save);
            var kept := Without(s.proofs, Select(s.proofs, invoice + fee));
            && !r.Refused? && kept <= t.proofs
            && var ps := t.proofs[|kept|..];
               && AreProofsOf(env, g, Named(env, ks), s.counter, AmountsIn(Met(fee, change)), k, Met(fee, change), ps)
               && (save == Saved ==> r == Done(MeltOutcome(true, Balance(ps))))
  {
    hide OnCurve, Signed, AreProofsOf, AllVerified, FirstFault, UnblindAll, AllChecked, Derivable, Without, Select,
         Balance, Denominations.Decomposed;
    var id, sigs := Named(env, ks), Met(fee, change);
    var blanks := Outputs(env, s.counter, Denominations.Decomposed(fee), ks);
    var pending := Paired(blanks, change);
    assert sigs == change[..|pending|];
    assert OutputsFrom(env, id, s.counter, AmountsIn(sigs), pending);
    BatchBecomesProofs(env, g, id, s.counter, AmountsIn(sigs), k, pending, sigs, keys);
    var ps := UnblindAll(env.unblind, pending, sigs, keys).value;
    assert ChangeProofs(env, blanks, change, keys) == Ok(ps);
    AllCheckedIff(env, keys, ps);
    var kept := Without(s.proofs, Select(s.proofs, invoice + fee));
    assert (kept + ps)[|kept|..] == ps;
  }

  // ---- Restoring ----

  // An entry that was asked about carries the mint's signature on that very output.
  ghost predicate EntrySigned(env: Env, g: Group, id: KeysetId, end: nat, k: u64 -> nat, keys: Keys, e: Restored)
  {
    Scanned(id, end, e.y) ==>
      && KeyIs(g, keys, e.signature.amount, k(e.signature.amount))
      && SignsOutput(env, g, id, e.y.idx, k(e.signature.amount), e.signature)
  }

  // The proof that entry j stands for.
  ghost predicate FromEntry(env: Env, g: Group, id: KeysetId, end: nat, k: u64 -> nat, e: Restored, p: Proof<Point>)
  {
    && Scanned(id, end, e.y)
    && IsProofOf(env, g, id, e.y.idx, e.signature.amount, k(e.signature.amount), e.signature, p)
  }

  ghost predicate FromEntries(env: Env, g: Group, id: KeysetId, end: nat, k: u64 -> nat, entries: seq<Restored>,
                              ps: Proofs)
  {
    forall i :: 0 <= i < |ps| ==> FromSome(env, g, id, end, k, entries, ps[i])
  }

  ghost predicate FromSome(env: Env, g: Group, id: KeysetId, end: nat, k: u64 -> nat, entries: seq<Restored>,
                           p: Proof<Point>)
  {
    exists j :: 0 <= j < |entries| && FromEntry(env, g, id, end, k, entries[j], p)
  }

  lemma {:induction false} ScanGivesProofs(env: Env, g: Group, id: KeysetId, end: nat, k: u64 -> nat, keys: Keys,
                                           known: set<Secret>, entries: seq<Restored>)
    requires OnCurve(env, g)
    requires forall j :: 0 <= j < |entries| ==> EntrySigned(env, g, id, end, k, keys, entries[j])
    ensures var r := Scan(env, id, end, keys, known, entries);
            r.Ok? && FromEntries(env, g, id, end, k, entries, r.value)
    decreases |entries|
  {
    hide OnCurve, KeyIs, SignsOutput, IsProofOf, UnblindOne;
    if entries == [] {
    } else {
      var e, rest := entries[0], entries[1..];
      assert forall j :: 0 <= j < |rest| ==> rest[j] == entries[j + 1];
      var skip := !Scanned(id, end, e.y) || e.y in known;
      var known' := if skip then known else known + {e.y};
      ScanGivesProofs(env, g, id, end, k, keys, known', rest);
      var ps := Scan(env, id, end, keys, known', rest).value;
      MoreEntries(env, g, id, end, k, entries, ps);
      if !skip {
        var pending := PendingOutput(e.y, env.blinder(id, e.y.idx), e.signature.amount);
        assert EntrySigned(env, g, id, end, k, keys, entries[0]);
        OutputBecomesProof(env, g, id, e.y.idx, pending, e.signature.amount, k(e.signature.amount), e.signature, keys);
        assert FromEntry(env, g, id, end, k, entries[0],
                         UnblindOne(env.unblind, pending, e.signature.amount, e.signature, keys).value);
      }
    }
  }

  lemma MoreEntries(env: Env, g: Group, id: KeysetId, end: nat, k: u64 -> nat, entries: seq<Restored>, ps: Proofs)
    requires entries != [] && FromEntries(env, g, id, end, k, entries[1..], ps)
    ensures FromEntries(env, g, id, end, k, entries, ps)
  {
    hide FromEntry;
    var rest := entries[1..];
    forall i | 0 <= i < |ps| ensures FromSome(env, g, id, end, k, entries, ps[i]) {
      assert FromSome(env, g, id, end, k, rest, ps[i]);
      var j :| 0 <= j < |rest| && FromEntry(env, g, id, end, k, rest[j], ps[i]);
      assert FromEntry(env, g, id, end, k, entries[j + 1], ps[i]);
    }
  }

  /** A restore that the mint answers honestly goes through: when the DLEQ proofs hold, it is not refused, and
      everything it adds is the mint's signature on the secret it was asked about, of the amount of that signature. */
  lemma HonestRestoreSucceeds(env: Env, g: Group, s: State, ks: KeysetText, keys: Keys, entries: seq<Restored>,
                              k: u64 -> nat, save: Save)
    requires OnCurve(env, g) && Derivable(env, 0, ScanEnd(s), ks)
    requires forall j :: 0 <= j < |entries| ==> EntrySigned(env, g, Named(env, ks), ScanEnd(s), k, keys, entries[j])
    requires forall j, p :: 0 <= j < |entries| && FromEntry(env, g, Named(env, ks), ScanEnd(s), k, entries[j], p) ==>
               CheckedUnder(env, keys, p)
    ensures var (t, r) := Restore(env, s, ks, keys, Ok(entries), save);
            && !r.Refused? && (save == Saved ==> r.Done?) && s.proofs <= t.proofs
            && FromEntries(env, g, Named(env, ks), ScanEnd(s), k, entries, t.proofs[|s.proofs|..])
  {
    hide OnCurve, EntrySigned, FromEntry, CheckedUnder, AllVerified, FirstFault, Derivable, Past, Scan;
    var id, end := Named(env, ks), ScanEnd(s);
    ScanGivesProofs(env, g, id, end, k, keys, SecretsOf(s.proofs), entries);
    var ps := Scan(env, id, end, keys, SecretsOf(s.proofs), entries).value;
    AllCheckedIff(env, keys, ps);
    assert (s.proofs + ps)[|s.proofs|..] == ps;
  }

  // ---- Restoring a lost request ----

  // What the mint says about the outputs of a request it signed.
  function Answers(id: KeysetId, from: nat, sigs: seq<Signature>): (entries: seq<Restored>)
    ensures |entries| == |sigs|
  {
    seq(|sigs|, i requires 0 <= i < |sigs| => Restored(Derived(id, from + i), sigs[i]))
  }

  // The secrets of outputs from .. from + n.
  ghost function Range(id: KeysetId, from: nat, n: nat): set<Secret>
  {
    set i | from <= i < from + n :: Derived(id, i)
  }

  lemma {:induction false} ScanIsUnblind(env: Env, ks: KeysetText, from: nat, end: nat, keys: Keys, known: set<Secret>,
                                         amounts: seq<u64>, sigs: seq<Signature>)
    requires |sigs| == |amounts| && forall i :: 0 <= i < |sigs| ==> sigs[i].amount == amounts[i]
    requires from + |amounts| <= end <= U32_MAX && known !! Range(Named(env, ks), from, |amounts|)
    ensures Scan(env, Named(env, ks), end, keys, known, Answers(Named(env, ks), from, sigs)) ==
            UnblindAll(env.unblind, Outputs(env, from, amounts, ks), sigs, keys)
    decreases |sigs|
  {
    hide UnblindOne;
    var id, entries, pending := Named(env, ks), Answers(Named(env, ks), from, sigs), Outputs(env, from, amounts, ks);
    if sigs == [] {
    } else {
      var y := Derived(id, from);
      assert y in Range(id, from, |amounts|);
      assert entries[0] == Restored(y, sigs[0]);
      assert Range(id, from + 1, |amounts| - 1) <= Range(id, from, |amounts|) - {y};
      assert entries[1..] == Answers(id, from + 1, sigs[1..]);
      assert pending[1..] == Outputs(env, from + 1, amounts[1..], ks);
      ScanIsUnblind(env, ks, from + 1, end, keys, known + {y}, amounts[1..], sigs[1..]);
      assert Index(from + 0) == from;
      assert pending[0] == PendingOutput(y, env.blinder(id, from), sigs[0].amount);
    }
  }

  /** Restoring makes good a lost request: had the answer arrived, the request would have credited these proofs;
      restoring the wallet as it was before, with the same signatures, brings it to the very same counter and proofs. */
  lemma LostRequestIsRestored(env: Env, s: State, amounts: seq<u64>, ks: KeysetText, keys: Keys, sigs: seq<Signature>,
                              save: Save)
    requires Orderly(s.counter, s.proofs) && 0 < |amounts| <= RESTORE_HEADROOM && s.counter + |amounts| <= U32_MAX
    requires |sigs| == |amounts| && forall i :: 0 <= i < |sigs| ==> sigs[i].amount == amounts[i]
    requires Credit(env, s, amounts, ks, keys, Ok(sigs), save).1.Done? && Derivable(env, 0, ScanEnd(s), ks)
    ensures Restore(env, s, ks, keys, Ok(Answers(Named(env, ks), s.counter, sigs)), save).0 ==
            Credit(env, s, amounts, ks, keys, Ok(sigs), save).0
  {
    hide UnblindAll, AllVerified, FirstFault, Derivable, Scan, Outputs, Answers, Past, Orderly;
    var id, end, known := Named(env, ks), ScanEnd(s), SecretsOf(s.proofs);
    HeldOutside(s, id, |amounts|);
    ScanIsUnblind(env, ks, s.counter, end, keys, known, amounts, sigs);
    var ps := UnblindAll(env.unblind, Outputs(env, s.counter, amounts, ks), sigs, keys).value;
    WalletValue.UnblindedAmounts(env, s.counter, amounts, ks, sigs, keys);
    PastFresh(s.counter, id, ps);
  }

  lemma HeldOutside(s: State, id: KeysetId, n: nat)
    requires Orderly(s.counter, s.proofs)
    ensures SecretsOf(s.proofs) !! Range(id, s.counter, n)
  {
    hide DistinctSecrets;
  }

  lemma {:induction false} PastFresh(counter: nat, id: KeysetId, ps: Proofs)
    requires FreshFrom(id, counter, ps) && counter + |ps| <= U32_MAX
    ensures Past(counter, ps) == counter + |ps|
  {
    if ps == [] {
    } else {
      PastFresh(counter, id, ps[..|ps| - 1]);
    }
  }
}
