/**
 Crash recovery of the persistent wallet: derivation indices are not reused, restoring brings back
 every output the mint has signed, and restoring again changes nothing.
 */
module WalletRecovery {
  import opened Results
  import opened Amounts
  import opened Ecash
  import opened Denominations
  import opened Wallet
  import opened WalletRuns
  import Envelope

  // ---- No secret is held twice, and every derived one is below the counter ----

  ghost predicate DistinctSecrets(ps: Proofs)
  {
    forall i, j :: 0 <= i < j < |ps| ==> ps[i].secret != ps[j].secret
  }

  ghost predicate BelowCounter(counter: nat, ps: Proofs)
  {
    forall i :: 0 <= i < |ps| && ps[i].secret.Derived? ==> ps[i].secret.idx < counter
  }

  ghost predicate Orderly(counter: nat, ps: Proofs)
  {
    DistinctSecrets(ps) && BelowCounter(counter, ps)
  }

  ghost predicate HoldsOrderly(env: Env, s: State)
  {
    Orderly(s.counter, s.proofs) && Orderly(Stored(env, s.blob).0, Stored(env, s.blob).1)
  }

  // Secrets of ps are the outputs derived from `from` on, one by one.
  ghost predicate FreshFrom(ks: KeysetId, from: nat, ps: Proofs)
  {
    forall i :: 0 <= i < |ps| ==> ps[i].secret == Derived(ks, Index(from + i))
  }

  lemma OrderlyPlusFresh(counter: nat, ps: Proofs, ks: KeysetId, more: Proofs, n: nat)
    requires Orderly(counter, ps) && FreshFrom(ks, counter, more) && |more| <= n && counter + n <= U32_MAX
    ensures Orderly(counter + n, ps + more)
  {
    var all := ps + more;
    forall i, j | 0 <= i < j < |all| ensures all[i].secret != all[j].secret {
      if j >= |ps| {
        assert all[j] == more[j - |ps|];
        if i >= |ps| {
          assert all[i] == more[i - |ps|];
        }
      }
    }
  }

  lemma {:induction false} WithoutOrderly(counter: nat, ps: Proofs, sel: Proofs)
    requires Orderly(counter, ps)
    ensures Orderly(counter, Without(ps, sel))
  {
    if ps == [] {
    } else {
      assert forall i :: 0 <= i < |ps| - 1 ==> ps[1..][i] == ps[i + 1];
      WithoutOrderly(counter, ps[1..], sel);
      var rest := Without(ps[1..], sel);
      forall i | 0 <= i < |rest| ensures rest[i].secret != ps[0].secret {
        assert rest[i] in ps[1..];
        var k :| 0 <= k < |ps| - 1 && ps[1..][k] == rest[i];
        assert ps[0].secret != ps[k + 1].secret;
      }
    }
  }

  lemma UnblindedAreFresh(env: Env, counter: nat, amounts: seq<u64>, ks: KeysetId, pending: seq<PendingOutput>,
                          sigs: seq<Signature>, keys: Keys)
    requires |pending| == |sigs| <= |amounts|
    requires forall i :: 0 <= i < |pending| ==> pending[i].secret == Derived(ks, Index(counter + i))
    ensures var r := UnblindAll(env.unblind, pending, sigs, keys);
            r.Ok? ==> FreshFrom(ks, counter, r.value) && |r.value| <= |amounts|
  {
  }

  lemma CreditOrderly(env: Env, s: State, amounts: seq<u64>, ks: KeysetText, keys: Keys,
                      sigs: Result<seq<Signature>, Error>, save: Save)
    requires Orderly(s.counter, s.proofs) && s.counter + |amounts| <= U32_MAX
    ensures var t := Credit(env, s, amounts, ks, keys, sigs, save).0;
            Orderly(t.counter, t.proofs) && s.counter <= t.counter
  {
    hide UnblindAll, FirstFault, AllVerified, Derivable, DistinctSecrets, FreshFrom;
    var pending := Outputs(env, s.counter, amounts, ks);
    OrderlyUp(s.counter, s.counter + |amounts|, s.proofs);
    if sigs.Ok? && |sigs.value| == |pending| {
      UnblindedAreFresh(env, s.counter, amounts, Named(env, ks), pending, sigs.value, keys);
      var r := UnblindAll(env.unblind, pending, sigs.value, keys);
      if r.Ok? {
        OrderlyPlusFresh(s.counter, s.proofs, Named(env, ks), r.value, |amounts|);
      }
    }
  }

  lemma OrderlyUp(c: nat, c': nat, ps: Proofs)
    requires Orderly(c, ps) && c <= c'
    ensures Orderly(c', ps)
  {
  }

  lemma MeltOrderly(env: Env, s: State, invoice: u64, fee: u64, ks: KeysetText, keys: Keys,
                    answer: Result<MeltReply, Error>, save: Save)
    requires Orderly(s.counter, s.proofs) && s.counter + |Decomposed(fee)| <= U32_MAX
    ensures var t := Melt(env, s, invoice, fee, ks, keys, answer, save).0;
            Orderly(t.counter, t.proofs) && s.counter <= t.counter
  {
    hide UnblindAll, FirstFault, AllVerified, Derivable, DistinctSecrets, FreshFrom, Select, Without, Decomposed,
         Balance;
    var amounts := Decomposed(fee);
    OrderlyUp(s.counter, s.counter + |amounts|, s.proofs);
    if invoice + fee <= U64_MAX {
      var selected := Select(s.proofs, invoice + fee);
      WithoutOrderly(s.counter, s.proofs, selected);
      OrderlyUp(s.counter, s.counter + |amounts|, Without(s.proofs, selected));
      assert Without(s.proofs, selected) + [] == Without(s.proofs, selected);
      if answer.Ok? && answer.value.change.Some? {
        var blanks, change := Outputs(env, s.counter, amounts, ks), answer.value.change.value;
        ChangeIsFresh(env, s.counter, amounts, ks, change, keys);
        var r := ChangeProofs(env, blanks, change, keys);
        if r.Ok? {
          OrderlyPlusFresh(s.counter, Without(s.proofs, selected), Named(env, ks), r.value, |amounts|);
        }
      }
    }
  }

  lemma ChangeIsFresh(env: Env, counter: nat, amounts: seq<u64>, ks: KeysetText, change: seq<Signature>, keys: Keys)
    ensures var r := ChangeProofs(env, Outputs(env, counter, amounts, ks), change, keys);
            r.Ok? ==> FreshFrom(Named(env, ks), counter, r.value) && |r.value| <= |amounts|
  {
    hide UnblindAll;
    var blanks := Outputs(env, counter, amounts, ks);
    var pending := Paired(blanks, change);
    UnblindedAreFresh(env, counter, amounts, Named(env, ks), pending, change[..|pending|], keys);
  }

  // ---- Restoring ----

  // What the scan returns: distinct secrets, in range, none of them known, all of them answered.
  ghost predicate ScanResult(ks: KeysetId, end: nat, known: set<Secret>, entries: seq<Restored>, ps: Proofs)
  {
    && DistinctSecrets(ps)
    && (forall i :: 0 <= i < |ps| ==> Scanned(ks, end, ps[i].secret) && ps[i].secret !in known)
    && (forall k :: 0 <= k < |entries| && Scanned(ks, end, entries[k].y) ==>
          entries[k].y in known || entries[k].y in SecretsOf(ps))
  }

  lemma {:induction false} ScanGives(env: Env, ks: KeysetId, end: nat, keys: Keys, known: set<Secret>,
                                     entries: seq<Restored>)
    ensures var r := Scan(env, ks, end, keys, known, entries);
            r.Ok? ==> ScanResult(ks, end, known, entries, r.value)
    decreases |entries|
  {
    if entries != [] {
      var e, rest := entries[0], entries[1..];
      if !Scanned(ks, end, e.y) || e.y in known {
        ScanGives(env, ks, end, keys, known, rest);
        var r := Scan(env, ks, end, keys, known, entries);
        if r.Ok? {
          ScanSkips(ks, end, known, entries, r.value);
        }
      } else {
        ScanGives(env, ks, end, keys, known + {e.y}, rest);
        var r := Scan(env, ks, end, keys, known, entries);
        if r.Ok? {
          ScanTakes(ks, end, known, entries, r.value);
        }
      }
    }
  }

  lemma ScanSkips(ks: KeysetId, end: nat, known: set<Secret>, entries: seq<Restored>, ps: Proofs)
    requires entries != [] && (!Scanned(ks, end, entries[0].y) || entries[0].y in known)
    requires ScanResult(ks, end, known, entries[1..], ps)
    ensures ScanResult(ks, end, known, entries, ps)
  {
    forall k | 0 <= k < |entries| && Scanned(ks, end, entries[k].y)
      ensures entries[k].y in known || entries[k].y in SecretsOf(ps)
    {
      assert k > 0 ==> entries[k] == entries[1..][k - 1];
    }
  }

  lemma ScanTakes(ks: KeysetId, end: nat, known: set<Secret>, entries: seq<Restored>, ps: Proofs)
    requires entries != [] && Scanned(ks, end, entries[0].y) && entries[0].y !in known
    requires ps != [] && ps[0].secret == entries[0].y
    requires ScanResult(ks, end, known + {entries[0].y}, entries[1..], ps[1..])
    ensures ScanResult(ks, end, known, entries, ps)
  {
    var rest := ps[1..];
    assert forall i :: 0 < i < |ps| ==> ps[i] == rest[i - 1];
    forall i, j | 0 <= i < j < |ps| ensures ps[i].secret != ps[j].secret {
      if i == 0 {
        assert rest[j - 1].secret !in known + {entries[0].y};
      } else {
        assert rest[i - 1].secret != rest[j - 1].secret;
      }
    }
    assert ps[0].secret in SecretsOf(ps);
    assert SecretsOf(rest) <= SecretsOf(ps);
    forall k | 0 <= k < |entries| && Scanned(ks, end, entries[k].y)
      ensures entries[k].y in known || entries[k].y in SecretsOf(ps)
    {
      assert k > 0 ==> entries[k] == entries[1..][k - 1];
    }
  }

  lemma OrderlyPlusScanned(counter: nat, ps: Proofs, ks: KeysetId, end: nat, entries: seq<Restored>, more: Proofs)
    requires Orderly(counter, ps) && ScanResult(ks, end, SecretsOf(ps), entries, more)
    ensures Orderly(Past(counter, more), ps + more)
  {
    var all := ps + more;
    forall i, j | 0 <= i < j < |all| ensures all[i].secret != all[j].secret {
      if j >= |ps| {
        assert all[j] == more[j - |ps|];
        if i < |ps| {
          assert all[i].secret in SecretsOf(ps);
        } else {
          assert all[i] == more[i - |ps|];
        }
      }
    }
  }

  lemma RestoreOrderly(env: Env, s: State, ks: KeysetText, keys: Keys, entries: Result<seq<Restored>, Error>,
                       save: Save)
    requires Orderly(s.counter, s.proofs)
    ensures var t := Restore(env, s, ks, keys, entries, save).0;
            Orderly(t.counter, t.proofs) && s.counter <= t.counter
  {
    hide Scan, FirstFault, AllVerified, Derivable, DistinctSecrets, ScanResult, SecretsOf;
    if entries.Ok? {
      var end := Advance(s.counter, RESTORE_HEADROOM);
      ScanGives(env, Named(env, ks), end, keys, SecretsOf(s.proofs), entries.value);
      var r := Scan(env, Named(env, ks), end, keys, SecretsOf(s.proofs), entries.value);
      if r.Ok? {
        OrderlyPlusScanned(s.counter, s.proofs, Named(env, ks), end, entries.value, r.value);
      }
    }
  }

  /** Whatever the wallet holds and whatever the mint answers, repeated outputs included, restoring never makes a
      secret held twice. */
  lemma RestoreKeepsDistinct(env: Env, s: State, ks: KeysetText, keys: Keys, entries: Result<seq<Restored>, Error>,
                             save: Save)
    requires DistinctSecrets(s.proofs)
    ensures DistinctSecrets(Restore(env, s, ks, keys, entries, save).0.proofs)
  {
    hide Scan, FirstFault, AllVerified, Derivable, Past;
    if entries.Ok? {
      var id, end, known := Named(env, ks), Advance(s.counter, RESTORE_HEADROOM), SecretsOf(s.proofs);
      ScanGives(env, id, end, keys, known, entries.value);
      var r := Scan(env, id, end, keys, known, entries.value);
      if r.Ok? {
        DistinctPlusNew(s.proofs, r.value);
      }
    }
  }

  lemma DistinctPlusNew(ps: Proofs, more: Proofs)
    requires DistinctSecrets(ps) && DistinctSecrets(more)
    requires forall i :: 0 <= i < |more| ==> more[i].secret !in SecretsOf(ps)
    ensures DistinctSecrets(ps + more)
  {
    var all := ps + more;
    forall i, j | 0 <= i < j < |all| ensures all[i].secret != all[j].secret {
      if j >= |ps| {
        assert all[j] == more[j - |ps|];
        if i < |ps| {
          assert all[i].secret in SecretsOf(ps);
        } else {
          assert all[i] == more[i - |ps|];
        }
      }
    }
  }

  // ---- Orderliness in every run ----

  // How many outputs a call asks the mint to sign, at most.
  function Asked(ev: Event): nat
  {
    match ev
    case DoMint(amount, _, _, _, _) => |Decomposed(amount)|
    case DoSwap(amounts, _, _, _, _) => |amounts|
    case DoMelt(_, fee, _, _, _, _) => |Decomposed(fee)|
    case _ => 0
  }

  // What a caller owes: the 32-bit counter is not exhausted, and proofs handed in are new to the
  // wallet and, if derived from its own seed, from below its counter.
  ghost predicate Admissible(env: Env, s: State, ev: Event)
  {
    && s.counter + Asked(ev) <= U32_MAX
    && (ev.DoAdd? ==> Orderly(s.counter, s.proofs + ev.ps))
    && LossReadsAsNothing(env, ev)
  }

  lemma StepKeepsOrderly(env: Env, s: State, ev: Event)
    requires env.codec.RoundTrips() && HoldsOrderly(env, s) && Admissible(env, s, ev)
    ensures HoldsOrderly(env, Step(env, s, ev))
    ensures !IsCrash(ev) ==> s.counter <= Step(env, s, ev).counter
  {
    hide Orderly, Stored, Credit, Melt, Restore, Decomposed, Select, Balance, Without;
    match ev {
      case DoMint(amount, ks, keys, sigs, save) => CreditOrderly(env, s, Decomposed(amount), ks, keys, sigs, save);
      case DoSwap(amounts, ks, keys, sigs, save) => CreditOrderly(env, s, amounts, ks, keys, sigs, save);
      case DoMelt(invoice, fee, ks, keys, answer, save) => MeltOrderly(env, s, invoice, fee, ks, keys, answer, save);
      case DoRestore(ks, keys, entries, save) => RestoreOrderly(env, s, ks, keys, entries, save);
      case DoSpend(amount, save) => WithoutOrderly(s.counter, s.proofs, Select(s.proofs, amount));
      case DoRemove(ps, save) => WithoutOrderly(s.counter, s.proofs, ps);
      case CrashLosing(bad) => NothingIsOrderly(env, bad);
      case _ =>
    }
    if !IsCrash(ev) {
      StoreFollowsMemory(env, s, ev);
    }
  }

  lemma NothingIsOrderly(env: Env, bad: Blob)
    requires Envelope.Decode(env.codec, bad, env.seedId) == None
    ensures Stored(env, Some(bad)) == (0, []) && Orderly(0, [])
  {
  }

  ghost predicate AllAdmissible(env: Env, s: State, evs: seq<Event>)
  {
    forall i :: 0 <= i < |evs| ==> Admissible(env, Run(env, s, evs[..i]), evs[i])
  }

  /** In every run no secret is ever held twice, in memory or in the store, and every index held is
      below the counter, even if the mint repeats outputs. */
  lemma {:induction false} SecretsStayDistinct(env: Env, evs: seq<Event>)
    requires env.codec.RoundTrips() && AllAdmissible(env, Load(env, None), evs)
    ensures HoldsOrderly(env, Run(env, Load(env, None), evs))
  {
    hide Admissible, Step, Orderly;
    if evs == [] {
      EmptyOrderly();
    } else {
      var front := evs[..|evs| - 1];
      assert forall i :: 0 <= i < |front| ==> front[..i] == evs[..i] && front[i] == evs[i];
      SecretsStayDistinct(env, front);
      StepKeepsOrderly(env, Run(env, Load(env, None), front), evs[|evs| - 1]);
    }
  }

  lemma EmptyOrderly()
    ensures Orderly(0, [])
  {
  }

  // ---- What the mint has signed ----

  // Does this call get as far as asking the mint to sign outputs?
  predicate Asks(env: Env, s: State, ev: Event)
  {
    match ev
    case DoMint(amount, ks, _, _, _) => Decomposed(amount) != [] && Derivable(env, s.counter, Asked(ev), ks)
    case DoSwap(amounts, ks, _, _, _) => amounts != [] && Derivable(env, s.counter, Asked(ev), ks)
    case DoMelt(invoice, fee, ks, _, _, _) => MeltAskable(s, invoice, fee) && Derivable(env, s.counter, Asked(ev), ks)
    case _ => false
  }

  // The outputs a call asks the mint to sign, named by their secrets.
  function Requests(env: Env, s: State, ev: Event): set<Secret>
  {
    if !Asks(env, s, ev) then {}
    else set i | s.counter <= i < s.counter + Asked(ev) :: Derived(Named(env, ev.ks), Index(i))
  }

  // The mint's answer to a restore leaves out no signed output it was asked about ...
  ghost predicate Complete(signed: set<Secret>, ks: KeysetId, end: nat, entries: seq<Restored>)
  {
    forall x :: x in signed && Scanned(ks, end, x) ==> exists k :: 0 <= k < |entries| && entries[k].y == x
  }

  // ... and names only outputs it has signed.
  ghost predicate Truthful(signed: set<Secret>, entries: seq<Restored>)
  {
    forall k :: 0 <= k < |entries| ==> entries[k].y in signed
  }

  ghost predicate AllBelow(signed: set<Secret>, ks: KeysetId, bound: nat)
  {
    forall x :: x in signed && x.Derived? && x.keyset == ks ==> x.idx < bound
  }

  /** A restore that is not refused brings back every signed output in its range: each one is held
      afterwards, and lies below the counter unless it was held at or above it before. */
  lemma RestoreRecovers(env: Env, s: State, ks: KeysetText, keys: Keys, entries: seq<Restored>, save: Save,
                        signed: set<Secret>, x: Secret)
    requires !Restore(env, s, ks, keys, Ok(entries), save).1.Refused?
    requires var end := Advance(s.counter, RESTORE_HEADROOM);
             Complete(signed, Named(env, ks), end, entries) && x in signed && Scanned(Named(env, ks), end, x)
    ensures var t := Restore(env, s, ks, keys, Ok(entries), save).0;
            && x in SecretsOf(t.proofs) && s.counter <= t.counter
            && (x !in SecretsOf(s.proofs) ==> x.idx < t.counter)
  {
    hide Scan, FirstFault, AllVerified, Derivable, DistinctSecrets;
    var end := Advance(s.counter, RESTORE_HEADROOM);
    var known := SecretsOf(s.proofs);
    ScanGives(env, Named(env, ks), end, keys, known, entries);
    var ps := Scan(env, Named(env, ks), end, keys, known, entries).value;
    var t := Restore(env, s, ks, keys, Ok(entries), save).0;
    var k :| 0 <= k < |entries| && entries[k].y == x;
    if x in known {
      var i :| 0 <= i < |s.proofs| && s.proofs[i].secret == x;
      assert t.proofs[i].secret == x;
    } else {
      var i :| 0 <= i < |ps| && ps[i].secret == x;
      assert t.proofs[|s.proofs| + i].secret == x;
    }
  }

  // No signed output of the keyset is held at or above the counter. An orderly wallet holds none.
  ghost predicate HeldBelow(signed: set<Secret>, ks: KeysetId, s: State)
  {
    forall x :: x in signed && x.Derived? && x.keyset == ks && x in SecretsOf(s.proofs) ==> x.idx < s.counter
  }

  lemma OrderlyHoldsBelow(signed: set<Secret>, ks: KeysetId, s: State)
    requires Orderly(s.counter, s.proofs)
    ensures HeldBelow(signed, ks, s)
  {
    hide DistinctSecrets;
  }

  /** Exactly when restoring makes the counter safe: every signed index of the keyset is below the
      counter afterwards if and only if every one was below the counter plus the headroom before. */
  lemma RestoreSafeIffInHeadroom(env: Env, s: State, ks: KeysetText, keys: Keys, entries: seq<Restored>, save: Save,
                                 signed: set<Secret>)
    requires HeldBelow(signed, Named(env, ks), s) && s.counter <= U32_MAX
    requires !Restore(env, s, ks, keys, Ok(entries), save).1.Refused?
    requires Complete(signed, Named(env, ks), Advance(s.counter, RESTORE_HEADROOM), entries)
    ensures AllBelow(signed, Named(env, ks), Restore(env, s, ks, keys, Ok(entries), save).0.counter) <==>
            AllBelow(signed, Named(env, ks), Advance(s.counter, RESTORE_HEADROOM))
  {
    var end, id := Advance(s.counter, RESTORE_HEADROOM), Named(env, ks);
    var t := Restore(env, s, ks, keys, Ok(entries), save).0;
    RestoreStaysInRange(env, s, ks, keys, entries, save);
    hide Restore, Complete, Advance, SecretsOf;
    if AllBelow(signed, id, end) {
      forall x | x in signed && x.Derived? && x.keyset == id ensures x.idx < t.counter {
        RestoreRecovers(env, s, ks, keys, entries, save, signed, x);
      }
    }
  }

  lemma RestoreStaysInRange(env: Env, s: State, ks: KeysetText, keys: Keys, entries: seq<Restored>, save: Save)
    requires s.counter <= U32_MAX
    ensures Restore(env, s, ks, keys, Ok(entries), save).0.counter <= Advance(s.counter, RESTORE_HEADROOM)
  {
    hide Scan, FirstFault, AllVerified, Derivable, Past;
    var end, id := Advance(s.counter, RESTORE_HEADROOM), Named(env, ks);
    ScanGives(env, id, end, keys, SecretsOf(s.proofs), entries);
    var r := Scan(env, id, end, keys, SecretsOf(s.proofs), entries);
    if r.Ok? {
      PastWithin(s.counter, r.value, id, end);
    }
  }

  lemma {:induction false} PastWithin(counter: nat, ps: Proofs, ks: KeysetId, end: nat)
    requires counter <= end && forall i :: 0 <= i < |ps| ==> Scanned(ks, end, ps[i].secret)
    ensures Past(counter, ps) <= end
  {
    if ps == [] {
      assert Past(counter, ps) == counter;
    } else {
      PastWithin(counter, ps[..|ps| - 1], ks, end);
    }
  }

  // ---- No index is used twice ----

  // The wallet, what the mint has signed for it, and the keysets restored since the last crash.
  datatype World = World(s: State, signed: set<Secret>, recovered: Keysets)

  // Every keyset, as before the first crash, or only the listed ones.
  datatype Keysets = Everything | Only(these: set<KeysetId>) {
    predicate Has(ks: KeysetId) { Everything? || ks in these }

    function Plus(ks: KeysetId): Keysets { if Everything? then this else Only(these + {ks}) }
  }

  // A restore that makes its keyset safe again.
  ghost predicate Recovers(env: Env, w: World, ev: Event)
  {
    && ev.DoRestore? && ev.entries.Ok?
    && !Restore(env, w.s, ev.ks, ev.keys, ev.entries, ev.save).1.Refused?
    && Complete(w.signed, Named(env, ev.ks), Advance(w.s.counter, RESTORE_HEADROOM), ev.entries.value)
    && AllBelow(w.signed, Named(env, ev.ks), Advance(w.s.counter, RESTORE_HEADROOM))
  }

  // One step: the wallet moves, the mint signs some of the outputs it is asked for (whether or not its
  // answer arrives), and a crash forgets what has been restored.
  ghost function WorldStep(env: Env, w: World, ev: Event, signs: set<Secret>): World
  {
    World(
      Step(env, w.s, ev),
      w.signed + signs,
      if IsCrash(ev) then Only({})
      else if Recovers(env, w, ev) then w.recovered.Plus(Named(env, ev.ks))
      else w.recovered)
  }

  // After a crash a caller restores a keyset before it asks for new outputs under it.
  ghost predicate Disciplined(env: Env, w: World, ev: Event, signs: set<Secret>)
  {
    && Admissible(env, w.s, ev)
    && signs <= Requests(env, w.s, ev)
    && (Requests(env, w.s, ev) != {} ==> w.recovered.Has(Named(env, ev.ks)))
  }

  ghost predicate WorldSafe(env: Env, w: World)
  {
    && HoldsOrderly(env, w.s)
    && w.s.counter <= U32_MAX
    && Stored(env, w.s.blob).0 <= U32_MAX
    && forall ks :: w.recovered.Has(ks) ==> AllBelow(w.signed, ks, w.s.counter)
  }

  lemma RequestsAreNew(env: Env, w: World, ev: Event)
    requires WorldSafe(env, w) && (Requests(env, w.s, ev) != {} ==> w.recovered.Has(Named(env, ev.ks)))
    requires w.s.counter + Asked(ev) <= U32_MAX
    ensures Requests(env, w.s, ev) !! w.signed
  {
    hide Derivable, HoldsOrderly, Stored, Decomposed, MeltAskable;
    forall x | x in Requests(env, w.s, ev) ensures x !in w.signed {
      assert AllBelow(w.signed, Named(env, ev.ks), w.s.counter);
    }
  }

  // Asking moves the counter past everything asked for.
  lemma AskingAdvances(env: Env, s: State, ev: Event)
    requires Asks(env, s, ev) && s.counter + Asked(ev) <= U32_MAX
    ensures Step(env, s, ev).counter == s.counter + Asked(ev)
  {
    hide UnblindAll, FirstFault, AllVerified, Derivable, Select, Without, Decomposed, Balance, ChangeProofs, Outputs;
  }

  lemma CounterStaysInRange(env: Env, s: State, ev: Event)
    requires s.counter + Asked(ev) <= U32_MAX && Stored(env, s.blob).0 <= U32_MAX && LossReadsAsNothing(env, ev)
    ensures Step(env, s, ev).counter <= U32_MAX
  {
    hide UnblindAll, FirstFault, AllVerified, Derivable, Select, Without, Decomposed, Balance, ChangeProofs, Outputs,
         Scan;
    if ev.DoRestore? && ev.entries.Ok? {
      RestoreStaysInRange(env, s, ev.ks, ev.keys, ev.entries.value, ev.save);
    }
  }

  lemma StepKeepsSafe(env: Env, w: World, ev: Event, signs: set<Secret>)
    requires env.codec.RoundTrips() && WorldSafe(env, w) && Disciplined(env, w, ev, signs)
    ensures WorldSafe(env, WorldStep(env, w, ev, signs))
  {
    var v := WorldStep(env, w, ev, signs);
    StepKeepsOrderly(env, w.s, ev);
    CounterStaysInRange(env, w.s, ev);
    if !IsCrash(ev) {
      StoreFollowsMemory(env, w.s, ev);
    }
    hide Step, Stored, HoldsOrderly, Restore, Asks, Complete, Advance;
    forall ks | v.recovered.Has(ks) ensures AllBelow(v.signed, ks, v.s.counter) {
      if Recovers(env, w, ev) && ks == Named(env, ev.ks) {
        RestoreSafe(env, w, ev);
        assert Requests(env, w.s, ev) == {};
      } else {
        assert AllBelow(w.signed, ks, w.s.counter);
        if Asks(env, w.s, ev) {
          AskingAdvances(env, w.s, ev);
        }
      }
    }
  }

  lemma RestoreSafe(env: Env, w: World, ev: Event)
    requires WorldSafe(env, w) && Recovers(env, w, ev)
    ensures AllBelow(w.signed, Named(env, ev.ks), Step(env, w.s, ev).counter) && !Asks(env, w.s, ev)
  {
    OrderlyHoldsBelow(w.signed, Named(env, ev.ks), w.s);
    RestoreSafeIffInHeadroom(env, w.s, ev.ks, ev.keys, ev.entries.value, ev.save, w.signed);
  }

  ghost function WorldRun(env: Env, evs: seq<(Event, set<Secret>)>): World
  {
    if evs == [] then World(Load(env, None), {}, Everything)
    else WorldStep(env, WorldRun(env, evs[..|evs| - 1]), evs[|evs| - 1].0, evs[|evs| - 1].1)
  }

  ghost predicate AllDisciplined(env: Env, evs: seq<(Event, set<Secret>)>)
  {
    forall i :: 0 <= i < |evs| ==> Disciplined(env, WorldRun(env, evs[..i]), evs[i].0, evs[i].1)
  }

  lemma {:induction false} RunsAreSafe(env: Env, evs: seq<(Event, set<Secret>)>)
    requires env.codec.RoundTrips() && AllDisciplined(env, evs)
    ensures WorldSafe(env, WorldRun(env, evs))
  {
    hide Disciplined, WorldStep;
    if evs == [] {
      EmptyOrderly();
    } else {
      var front := evs[..|evs| - 1];
      assert forall i :: 0 <= i < |front| ==> front[..i] == evs[..i] && front[i] == evs[i];
      RunsAreSafe(env, front);
      StepKeepsSafe(env, WorldRun(env, front), evs[|evs| - 1].0, evs[|evs| - 1].1);
    }
  }

  /** Main theorem: in every disciplined run, with any crashes, lost answers and failed saves, the wallet
      never asks the mint to sign an output that the mint has signed before. */
  lemma NoOutputIsRequestedTwice(env: Env, evs: seq<(Event, set<Secret>)>, i: nat)
    requires env.codec.RoundTrips() && AllDisciplined(env, evs) && i < |evs|
    ensures Requests(env, WorldRun(env, evs[..i]).s, evs[i].0) !! WorldRun(env, evs[..i]).signed
  {
    hide Disciplined, WorldStep;
    var front := evs[..i];
    assert forall j :: 0 <= j < |front| ==> front[..j] == evs[..j] && front[j] == evs[j];
    RunsAreSafe(env, front);
    DisciplinedAsksRecovered(env, WorldRun(env, front), evs[i].0, evs[i].1);
    RequestsAreNew(env, WorldRun(env, front), evs[i].0);
  }

  lemma DisciplinedAsksRecovered(env: Env, w: World, ev: Event, signs: set<Secret>)
    requires Disciplined(env, w, ev, signs)
    ensures Requests(env, w.s, ev) != {} ==> w.recovered.Has(Named(env, ev.ks))
    ensures w.s.counter + Asked(ev) <= U32_MAX
  {
  }

  // ---- When the counter runs out ----

  /** Exactly when a request leaves its indices behind the counter: when the 32-bit counter can still count them. */
  lemma AskingMovesPastIff(env: Env, s: State, ev: Event)
    requires Asks(env, s, ev) && Asked(ev) > 0 && s.counter <= U32_MAX
    ensures (forall x :: x in Requests(env, s, ev) ==> s.counter <= x.idx < Step(env, s, ev).counter) <==>
            s.counter + Asked(ev) <= U32_MAX
  {
    AskingSaturates(env, s, ev);
    hide Step, Asks;
    if s.counter + Asked(ev) > U32_MAX {
      assert Index(U32_MAX) == U32_MAX;
      assert Derived(Named(env, ev.ks), U32_MAX) in Requests(env, s, ev);
    }
  }

  lemma AskingSaturates(env: Env, s: State, ev: Event)
    requires Asks(env, s, ev)
    ensures Step(env, s, ev).counter == Advance(s.counter, Asked(ev))
  {
    hide UnblindAll, FirstFault, AllVerified, Derivable, Select, Without, Decomposed, Balance, ChangeProofs, Outputs;
  }

  /** At the end of the 32-bit range the counter stays put: two one-output swaps in a row ask for the same output. */
  lemma ExhaustedCounterRepeats(env: Env, s: State, first: Event, second: Event)
    requires s.counter == U32_MAX && first.DoSwap? && second.DoSwap? && first.amounts == second.amounts == [1]
    requires first.ks == second.ks && Asks(env, s, first)
    ensures Requests(env, s, first) == Requests(env, Step(env, s, first), second) != {}
  {
    AskingSaturates(env, s, first);
    var t := Step(env, s, first);
    hide Step;
    assert Asks(env, t, second);
    assert Derived(Named(env, first.ks), Index(U32_MAX)) in Requests(env, s, first);
  }

  // ---- When the headroom is enough ----

  /** If the unsaved part of the counter is within the headroom when the wallet crashes, everything signed
      is in range of the restore that follows. */
  lemma UnsavedWithinHeadroom(env: Env, w: World, ks: KeysetId)
    requires WorldSafe(env, w) && w.recovered.Has(ks)
    requires w.s.counter <= Stored(env, w.s.blob).0 + RESTORE_HEADROOM
    ensures AllBelow(w.signed, ks, Advance(Step(env, w.s, Crash).counter, RESTORE_HEADROOM))
  {
    hide HoldsOrderly, Stored;
  }

  lemma AtMostAsked(env: Env, s: State, ev: Event)
    requires (ev.DoMint? || ev.DoMelt?) && s.counter + Asked(ev) <= U32_MAX
    ensures s.counter <= Step(env, s, ev).counter <= s.counter + RESTORE_HEADROOM
  {
    hide UnblindAll, FirstFault, AllVerified, Derivable, Select, Without, Decomposed, Balance, ChangeProofs, Outputs;
  }

  /** One mint or melt whose answer is lost, right after a save, is always within the headroom: an amount
      splits into at most 64 outputs. */
  lemma OneLostRequestIsCovered(env: Env, s: State, ev: Event)
    requires env.codec.RoundTrips() && (ev.DoMint? || ev.DoMelt?)
    requires s.counter + Asked(ev) <= U32_MAX && Stored(env, s.blob) == (s.counter, s.proofs)
    ensures Step(env, s, ev).counter <= Stored(env, Step(env, s, ev).blob).0 + RESTORE_HEADROOM
  {
    StoreFollowsMemory(env, s, ev);
    AtMostAsked(env, s, ev);
    hide Step, Stored;
  }

  /** The headroom is tight: 65 outputs signed for one swap whose answer is lost reach past it, so after the
      crash no restore can make the counter safe. */
  lemma SixtyFiveLostOutputsEscape(env: Env, ks: KeysetText, keys: Keys, e: Error, save: Save,
                                   keys': Keys, entries: seq<Restored>, save': Save)
    requires env.decodeId(ks).Some? && forall i :: env.derivable(Named(env, ks), i)
    requires var ev := DoSwap(seq(65, _ => 1), ks, keys, Err(e), save);
             var s := Step(env, Step(env, Load(env, None), ev), Crash);
             && !Restore(env, s, ks, keys', Ok(entries), save').1.Refused?
             && Complete(Requests(env, Load(env, None), ev), Named(env, ks), Advance(s.counter, RESTORE_HEADROOM),
                entries)
    ensures var ev := DoSwap(seq(65, _ => 1), ks, keys, Err(e), save);
            var s := Step(env, Step(env, Load(env, None), ev), Crash);
            !AllBelow(Requests(env, Load(env, None), ev), Named(env, ks),
                      Restore(env, s, ks, keys', Ok(entries), save').0.counter)
  {
    hide Restore, Complete, UnblindAll;
    var ev := DoSwap(seq(65, _ => 1), ks, keys, Err(e), save);
    var s := Step(env, Step(env, Load(env, None), ev), Crash);
    assert s.counter == 0;
    EmptyOrderly();
    OrderlyHoldsBelow(Requests(env, Load(env, None), ev), Named(env, ks), s);
    RestoreSafeIffInHeadroom(env, s, ks, keys', entries, save', Requests(env, Load(env, None), ev));
    assert Index(64) == 64;
    assert Derived(Named(env, ks), 64) in Requests(env, Load(env, None), ev);
  }
}
