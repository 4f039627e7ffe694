/**
 Whole runs of the persistent wallet: any sequence of its operations, with any answers from the
 mint, any failing saves, and crashes that reload the wallet from its store.

 A crash in the middle of an operation is covered: it leaves the store as the operation's save
 would, so it is that operation with a failed save, followed by a crash.
 */
module WalletRuns {
  import opened Results
  import opened Amounts
  import opened Ecash
  import opened Denominations
  import opened Wallet
  import Envelope
  import BlindSignatures

  datatype Event =
    | DoMint(amount: u64, ks: KeysetText, keys: Keys, sigs: Result<seq<Signature>, Error>, save: Save)
    | DoSwap(amounts: seq<u64>, ks: KeysetText, keys: Keys, sigs: Result<seq<Signature>, Error>, save: Save)
    | DoMelt(invoice: u64, fee: u64, ks: KeysetText, keys: Keys, answer: Result<MeltReply, Error>, save: Save)
    | DoRestore(ks: KeysetText, keys: Keys, entries: Result<seq<Restored>, Error>, save: Save)
    | DoSpend(amount: u64, save: Save)
    | DoAdd(ps: Proofs, save: Save)       // `add_proofs` or `undo_spend`
    | DoRemove(ps: Proofs, save: Save)
    | Crash                               // reload what the store holds
    | CrashLosing(bad: Blob)              // reload from a blob that has become unreadable

  function Step(env: Env, s: State, ev: Event): State
  {
    match ev
    case DoMint(amount, ks, keys, sigs, save) => Mint(env, s, amount, ks, keys, sigs, save).0
    case DoSwap(amounts, ks, keys, sigs, save) => Swap(env, s, amounts, ks, keys, sigs, save).0
    case DoMelt(invoice, fee, ks, keys, answer, save) => Melt(env, s, invoice, fee, ks, keys, answer, save).0
    case DoRestore(ks, keys, entries, save) => Restore(env, s, ks, keys, entries, save).0
    case DoSpend(amount, save) => Spend(env, s, amount, save).0
    case DoAdd(ps, save) => Add(env, s, ps, save).0
    case DoRemove(ps, save) => Remove(env, s, ps, save).0
    case Crash => Load(env, s.blob)
    case CrashLosing(bad) => Load(env, Some(bad))
  }

  function Run(env: Env, s: State, evs: seq<Event>): State
  {
    if evs == [] then s else Step(env, Run(env, s, evs[..|evs| - 1]), evs[|evs| - 1])
  }

  predicate IsCrash(ev: Event) { ev.Crash? || ev.CrashLosing? }

  predicate HasKeys(ev: Event) { ev.DoMint? || ev.DoSwap? || ev.DoMelt? || ev.DoRestore? }

  // A blob lost to corruption reads as nothing stored (see the corruption lemmas of module `Envelope`).
  predicate LossReadsAsNothing(env: Env, ev: Event)
  {
    ev.CrashLosing? ==> Envelope.Decode(env.codec, ev.bad, env.seedId) == None
  }

  // ---- The store follows the memory ----

  lemma SavedReadsBack(env: Env, s: State, save: Save)
    requires env.codec.RoundTrips()
    ensures var t := Persist(env, s, save);
            Stored(env, t.blob) == Stored(env, s.blob) || Stored(env, t.blob) == (s.counter, s.proofs)
  {
    Envelope.RoundTrip(env.codec, s.counter, s.proofs, env.seedId, env.seedId);
  }

  /** After any operation the store reads as it did before, or as the memory reads now. */
  lemma StoreFollowsMemory(env: Env, s: State, ev: Event)
    requires env.codec.RoundTrips() && !IsCrash(ev)
    ensures var t := Step(env, s, ev);
            Stored(env, t.blob) == Stored(env, s.blob) || Stored(env, t.blob) == (t.counter, t.proofs)
  {
    hide Stored, UnblindAll, AllVerified, FirstFault, Scan, Select, Without, Outputs, Derivable, Advance, ChangeProofs,
         Decomposed, Balance;
    match ev {
      case DoMint(amount, ks, keys, sigs, save) =>
        CreditStore(env, s, Decomposed(amount), ks, keys, sigs, save);
      case DoSwap(amounts, ks, keys, sigs, save) =>
        CreditStore(env, s, amounts, ks, keys, sigs, save);
      case DoMelt(_, fee, ks, _, _, save) =>
        var t := Step(env, s, ev);
        SavedReadsBack(env, t.(blob := s.blob), save);
      case DoRestore(_, _, _, save) =>
        var t := Step(env, s, ev);
        SavedReadsBack(env, t.(blob := s.blob), save);
      case DoSpend(_, save) =>
        var t := Step(env, s, ev);
        SavedReadsBack(env, t.(blob := s.blob), save);
      case DoAdd(_, save) =>
        var t := Step(env, s, ev);
        SavedReadsBack(env, t.(blob := s.blob), save);
      case DoRemove(_, save) =>
        var t := Step(env, s, ev);
        SavedReadsBack(env, t.(blob := s.blob), save);
      case _ =>
    }
  }

  lemma CreditStore(env: Env, s: State, amounts: seq<u64>, ks: KeysetText, keys: Keys,
                    sigs: Result<seq<Signature>, Error>, save: Save)
    requires env.codec.RoundTrips()
    ensures var t := Credit(env, s, amounts, ks, keys, sigs, save).0;
            Stored(env, t.blob) == Stored(env, s.blob) || Stored(env, t.blob) == (t.counter, t.proofs)
  {
    hide Stored, UnblindAll, AllVerified, FirstFault, Outputs, Derivable, Advance;
    var t := Credit(env, s, amounts, ks, keys, sigs, save).0;
    SavedReadsBack(env, t.(blob := s.blob), save);
  }

  // The operation reported success after saving.
  predicate Acknowledged(env: Env, s: State, ev: Event)
  {
    match ev
    case DoMint(amount, ks, keys, sigs, save) => Mint(env, s, amount, ks, keys, sigs, save).1.Done?
    case DoSwap(amounts, ks, keys, sigs, save) => Swap(env, s, amounts, ks, keys, sigs, save).1.Done?
    case DoMelt(invoice, fee, ks, keys, answer, save) => Melt(env, s, invoice, fee, ks, keys, answer, save).1.Done?
    case DoRestore(ks, keys, entries, save) =>
      var r := Restore(env, s, ks, keys, entries, save).1;
      r.Done? && r.value > 0
    case DoSpend(amount, save) => Spend(env, s, amount, save).1.Done?
    case DoAdd(ps, save) => Add(env, s, ps, save).1.Done?
    case DoRemove(ps, save) => Remove(env, s, ps, save).1.Done?
    case _ => false
  }

  lemma LoadsBack(env: Env, s: State)
    requires env.codec.RoundTrips()
    ensures Load(env, Persist(env, s, Saved).blob) == Persist(env, s, Saved)
  {
    Envelope.RoundTrip(env.codec, s.counter, s.proofs, env.seedId, env.seedId);
  }

  /** What was acknowledged survives a crash: reloading gives back the counter and the proofs unchanged. */
  lemma {:induction false} AcknowledgedIsDurable(env: Env, s: State, ev: Event)
    requires env.codec.RoundTrips() && Acknowledged(env, s, ev)
    ensures Step(env, Step(env, s, ev), Crash) == Step(env, s, ev)
  {
    hide Load, UnblindAll, AllVerified, FirstFault, Scan, Select, Without, Outputs, Derivable, Advance, ChangeProofs,
         Decomposed, Balance;
    var t := Step(env, s, ev);
    LoadsBack(env, t);
    assert t == Persist(env, t, Saved);
  }

  // ---- Where proofs come from ----

  // Every proof held after an operation was held before, was verified by it, or was handed in.
  lemma ProofsComeFrom(env: Env, s: State, ev: Event, p: Proof<Point>)
    requires !IsCrash(ev) && p in Step(env, s, ev).proofs
    ensures p in s.proofs || (HasKeys(ev) && CheckedUnder(env, ev.keys, p)) || (ev.DoAdd? && p in ev.ps)
  {
    hide Step, Verified, CheckedUnder;
    AddedAreVerified(env, s, ev, p);
    if HasKeys(ev) {
      VerifiedIffChecked(env, ev.keys, p);
    }
  }

  lemma AddedAreVerified(env: Env, s: State, ev: Event, p: Proof<Point>)
    requires !IsCrash(ev) && p in Step(env, s, ev).proofs
    ensures p in s.proofs || (HasKeys(ev) && Verified(env, ev.keys, p)) || (ev.DoAdd? && p in ev.ps)
  {
    hide Envelope.Encode, Stored;
    hide UnblindAll, FirstFault, Scan, Select, Outputs, Derivable, Advance, ChangeProofs, Decomposed, Balance, Verified,
         Past;
    assert forall ps: Proofs :: p in ps ==> exists i :: 0 <= i < |ps| && ps[i] == p;
  }

  // ---- Only verified proofs are held ----

  // A DLEQ proof that holds under a key, listed for the amount in one of the key sets that callers have passed in.
  ghost predicate Vouched(env: Env, K: set<Keys>, p: Proof<Point>)
  {
    exists keys :: keys in K && CheckedUnder(env, keys, p)
  }

  ghost predicate AllVouched(env: Env, K: set<Keys>, ps: Proofs)
  {
    forall p :: p in ps ==> Vouched(env, K, p)
  }

  // Memory and store hold vouched proofs only.
  ghost predicate HoldsVouched(env: Env, K: set<Keys>, s: State)
  {
    AllVouched(env, K, s.proofs) && AllVouched(env, K, Stored(env, s.blob).1)
  }

  // What a caller owes: its key sets are among K, and proofs it hands in are vouched.
  ghost predicate Honours(env: Env, K: set<Keys>, ev: Event)
  {
    && (HasKeys(ev) ==> ev.keys in K)
    && (ev.DoAdd? ==> AllVouched(env, K, ev.ps))
    && LossReadsAsNothing(env, ev)
  }

  lemma StepKeepsVouched(env: Env, K: set<Keys>, s: State, ev: Event)
    requires env.codec.RoundTrips() && HoldsVouched(env, K, s) && Honours(env, K, ev)
    ensures HoldsVouched(env, K, Step(env, s, ev))
  {
    if !IsCrash(ev) {
      hide Step, Stored, CheckedUnder;
      var t := Step(env, s, ev);
      forall p | p in t.proofs ensures Vouched(env, K, p) {
        ProofsComeFrom(env, s, ev, p);
      }
      StoreFollowsMemory(env, s, ev);
    }
  }

  lemma {:induction false} RunKeepsVouched(env: Env, K: set<Keys>, evs: seq<Event>)
    requires env.codec.RoundTrips() && forall i :: 0 <= i < |evs| ==> Honours(env, K, evs[i])
    ensures HoldsVouched(env, K, Run(env, Load(env, None), evs))
  {
    hide Honours, Step;
    if evs == [] {
    } else {
      RunKeepsVouched(env, K, evs[..|evs| - 1]);
      StepKeepsVouched(env, K, Run(env, Load(env, None), evs[..|evs| - 1]), evs[|evs| - 1]);
    }
  }

  /** In every run, every proof in memory and in the store carries a DLEQ proof (NUT-12) that holds under a key listed
      for its amount. */
  lemma OnlyVerifiedProofsHeld(env: Env, K: set<Keys>, evs: seq<Event>, p: Proof<Point>)
    requires env.codec.RoundTrips() && forall i :: 0 <= i < |evs| ==> Honours(env, K, evs[i])
    requires var t := Run(env, Load(env, None), evs);
             p in t.proofs || p in Stored(env, t.blob).1
    ensures p.dleq.Some?
    ensures exists keys: Keys, i :: keys in K && 0 <= i < |keys| && keys[i].amount == p.amount
                              && env.verifyDleq(p.secret, p.c, p.dleq.value, keys[i].pubkey)
  {
    hide Honours, Step, Run, Stored;
    RunKeepsVouched(env, K, evs);
    assert Vouched(env, K, p);
    var keys: Keys :| keys in K && CheckedUnder(env, keys, p);
    var i :| FirstKey(keys, p.amount, i) && env.verifyDleq(p.secret, p.c, p.dleq.value, keys[i].pubkey);
  }

  // What is assumed of DLEQ verification (NUT-12): under a public key of the mint it only passes k times the hashed
  // secret.
  ghost predicate DleqSound(env: Env, K: set<Keys>, g: BlindSignatures.Curve<Point, Secret>, k: (Keys, u64) -> nat)
  {
    forall keys: Keys, i, secret, c, d ::
      && keys in K && 0 <= i < |keys| && env.verifyDleq(secret, c, d, keys[i].pubkey)
      ==> g.hash(secret).Some? && c == g.Mul(k(keys, keys[i].amount), g.hash(secret).value)
  }

  /** So in every run everything held, in memory and in the store, is a valid signature: the private-key verifier
      accepts it under the key of its amount. */
  lemma OnlySignaturesHeld(env: Env, K: set<Keys>, evs: seq<Event>, p: Proof<Point>,
                           g: BlindSignatures.Curve<Point, Secret>, k: (Keys, u64) -> nat)
    requires env.codec.RoundTrips() && forall i :: 0 <= i < |evs| ==> Honours(env, K, evs[i])
    requires DleqSound(env, K, g, k)
    requires var t := Run(env, Load(env, None), evs);
             p in t.proofs || p in Stored(env, t.blob).1
    ensures exists keys: Keys :: keys in K && g.VerifyWithPrivkey(p.secret, p.c, k(keys, p.amount)) == Some(true)
  {
    hide Honours, Step, Run, Stored;
    OnlyVerifiedProofsHeld(env, K, evs, p);
    var keys: Keys, i :| keys in K && 0 <= i < |keys| && keys[i].amount == p.amount
                   && env.verifyDleq(p.secret, p.c, p.dleq.value, keys[i].pubkey);
    assert g.VerifyWithPrivkey(p.secret, p.c, k(keys, p.amount)) == Some(true);
  }

  /** Nothing is kept from an operation that is refused: both proof lists stay as they were. */
  lemma RefusalKeepsProofs(env: Env, s: State, ev: Event)
    requires HasKeys(ev)
    requires match ev
             case DoMint(amount, ks, keys, sigs, save) => Mint(env, s, amount, ks, keys, sigs, save).1.Refused?
             case DoSwap(amounts, ks, keys, sigs, save) => Swap(env, s, amounts, ks, keys, sigs, save).1.Refused?
             case DoMelt(invoice, fee, ks, keys, answer, save) =>
               Melt(env, s, invoice, fee, ks, keys, answer, save).1.Refused?
             case DoRestore(ks, keys, entries, save) => Restore(env, s, ks, keys, entries, save).1.Refused?
             case _ => true
    ensures Step(env, s, ev).proofs == s.proofs && Step(env, s, ev).blob == s.blob
  {
    hide UnblindAll, FirstFault, Scan, Select, Outputs, Derivable, Advance, ChangeProofs, Decomposed, Balance,
         AllVerified, Without;
  }
}
