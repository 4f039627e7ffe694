/**
 What restoring does to a wallet in any state, and what repeated restores reach
 (cashu-core-lite/src/persistent.rs, `restore`).
 */
module WalletRestores {
  import opened Results
  import opened Ecash
  import opened Wallet
  import opened WalletRuns
  import opened WalletRecovery
  import Envelope

  // One restore that gets an answer from the mint.
  datatype Attempt = Attempt(keys: Keys, entries: seq<Restored>, save: Save)

  function Restoring(env: Env, s: State, ks: KeysetText, a: Attempt): (State, Outcome<nat>)
  {
    Restore(env, s, ks, a.keys, Ok(a.entries), a.save)
  }

  function ScanEnd(s: State): nat { Advance(s.counter, RESTORE_HEADROOM) }

  predicate OfKeyset(ks: KeysetId, x: Secret) { x.Derived? && x.keyset == ks }

  // The restore goes through, and the mint names what it has signed, all of it and nothing else.
  ghost predicate Honest(env: Env, s: State, ks: KeysetText, a: Attempt, signed: set<Secret>)
  {
    && !Restoring(env, s, ks, a).1.Refused?
    && Complete(signed, Named(env, ks), ScanEnd(s), a.entries)
    && Truthful(signed, a.entries)
  }

  // The signed outputs in range that the wallet does not hold.
  ghost function Missing(signed: set<Secret>, ks: KeysetId, s: State): (r: set<Secret>)
    ensures forall x :: x in r ==> x in signed && OfKeyset(ks, x)
  {
    set x | x in signed && Scanned(ks, ScanEnd(s), x) && x !in SecretsOf(s.proofs)
  }

  // ---- What one restore adds ----

  lemma {:induction false} ScanTakesFromEntries(env: Env, ks: KeysetId, end: nat, keys: Keys, known: set<Secret>,
                                                entries: seq<Restored>, x: Secret)
    requires Scan(env, ks, end, keys, known, entries).Ok?
    requires x in SecretsOf(Scan(env, ks, end, keys, known, entries).value)
    ensures exists k :: 0 <= k < |entries| && entries[k].y == x
    decreases |entries|
  {
    if entries == [] {
      assert false;
    } else {
      var e, rest := entries[0], entries[1..];
      if e.y != x {
        var known' := if !Scanned(ks, end, e.y) || e.y in known then known else known + {e.y};
        var ps, qs := Scan(env, ks, end, keys, known, entries).value, Scan(env, ks, end, keys, known', rest).value;
        assert ps == qs || (ps[0].secret == e.y && ps[1..] == qs);
        var i :| 0 <= i < |ps| && ps[i].secret == x;
        assert ps == qs || ps[i] == qs[i - 1];
        ScanTakesFromEntries(env, ks, end, keys, known', rest, x);
        var k :| 0 <= k < |rest| && rest[k].y == x;
        assert entries[k + 1].y == x;
      }
    }
  }

  // The proofs a restore brings back.
  function Recovered(env: Env, s: State, ks: KeysetText, a: Attempt): Proofs
  {
    var r := Scan(env, Named(env, ks), ScanEnd(s), a.keys, SecretsOf(s.proofs), a.entries);
    if r.Ok? then r.value else []
  }

  /** Whatever the wallet holds, an honest answer adds exactly the missing outputs, and moves the counter past the
      highest of them. */
  lemma RestoreAddsMissing(env: Env, s: State, ks: KeysetText, a: Attempt, signed: set<Secret>)
    requires Honest(env, s, ks, a, signed)
    ensures var (t, r) := Restoring(env, s, ks, a);
            var ps := Recovered(env, s, ks, a);
            && t.proofs == s.proofs + ps && t.counter == Past(s.counter, ps)
            && SecretsOf(ps) == Missing(signed, Named(env, ks), s)
            && (r == Done(0) <==> ps == []) && (r.Done? ==> r.value == |Missing(signed, Named(env, ks), s)|)
  {
    hide FirstFault, AllVerified, Derivable, Past;
    var id, end, known := Named(env, ks), ScanEnd(s), SecretsOf(s.proofs);
    var ps := Recovered(env, s, ks, a);
    ScanGives(env, id, end, a.keys, known, a.entries);
    AddsNothingElse(env, s, ks, a, signed);
    forall x | x in Missing(signed, id, s) ensures x in SecretsOf(ps) {
      var k :| 0 <= k < |a.entries| && a.entries[k].y == x;
    }
    DistinctCount(ps);
  }

  lemma {:induction false} DistinctCount(ps: Proofs)
    requires DistinctSecrets(ps)
    ensures |SecretsOf(ps)| == |ps|
  {
    if ps == [] {
    } else {
      var front, last := ps[..|ps| - 1], ps[|ps| - 1];
      DistinctCount(front);
      assert ps == front + [last];
      SecretsOfBoth(front, [last]);
      assert SecretsOf([last]) == {last.secret} by {
        assert [last][0].secret in SecretsOf([last]);
      }
      assert last.secret !in SecretsOf(front);
    }
  }

  lemma AddsNothingElse(env: Env, s: State, ks: KeysetText, a: Attempt, signed: set<Secret>)
    requires Truthful(signed, a.entries)
    ensures SecretsOf(Recovered(env, s, ks, a)) <= Missing(signed, Named(env, ks), s)
  {
    hide Scan;
    var id, end, known := Named(env, ks), ScanEnd(s), SecretsOf(s.proofs);
    var ps := Recovered(env, s, ks, a);
    ScanGives(env, id, end, a.keys, known, a.entries);
    forall x | x in SecretsOf(ps) ensures x in Missing(signed, id, s) {
      ScanTakesFromEntries(env, id, end, a.keys, known, a.entries, x);
      var i :| 0 <= i < |ps| && ps[i].secret == x;
    }
  }

  // ---- When the counter is safe ----

  lemma {:induction false} PastIff(counter: nat, ps: Proofs, b: nat)
    requires forall i :: 0 <= i < |ps| ==> ps[i].secret.Derived?
    ensures b < Past(counter, ps) <==> b < counter || exists i :: 0 <= i < |ps| && b <= ps[i].secret.idx
  {
    if ps == [] {
      assert Past(counter, ps) == counter;
    } else {
      var front, last := ps[..|ps| - 1], ps[|ps| - 1];
      PastIff(counter, front, b);
      if b < Past(counter, ps) && b >= counter && b > last.secret.idx {
        var i :| 0 <= i < |front| && b <= front[i].secret.idx;
        assert ps[i] == front[i];
      }
      if i :| 0 <= i < |ps| && b <= ps[i].secret.idx {
        assert i < |front| ==> front[i] == ps[i];
      }
    }
  }

  /** Exactly how far an honest restore moves the counter, whatever the wallet holds: an index is below it afterwards
      if and only if it was before, or a missing signed index is at least as high. */
  lemma CounterAfterRestore(env: Env, s: State, ks: KeysetText, a: Attempt, signed: set<Secret>, b: nat)
    requires Honest(env, s, ks, a, signed)
    ensures b < Restoring(env, s, ks, a).0.counter <==>
            b < s.counter || exists y :: y in Missing(signed, Named(env, ks), s) && b <= y.idx
  {
    hide Restoring, Scan, Honest;
    RestoreAddsMissing(env, s, ks, a, signed);
    var ps, missing := Recovered(env, s, ks, a), Missing(signed, Named(env, ks), s);
    forall i | 0 <= i < |ps| ensures ps[i].secret in missing {
      assert ps[i].secret in SecretsOf(ps);
    }
    PastIff(s.counter, ps, b);
    if y :| y in missing && b <= y.idx {
      assert y in SecretsOf(ps);
      var i :| 0 <= i < |ps| && ps[i].secret == y;
    }
  }

  /** Exactly when a restore makes the counter safe, whatever the wallet holds: every signed index of the keyset is
      below the counter afterwards if and only if each was before, or has a missing signed index at or above it. An
      index that is held already does not count, since restoring skips it. */
  lemma RestoreSafeIff(env: Env, s: State, ks: KeysetText, a: Attempt, signed: set<Secret>)
    requires Honest(env, s, ks, a, signed)
    ensures AllBelow(signed, Named(env, ks), Restoring(env, s, ks, a).0.counter) <==>
            forall x :: x in signed && OfKeyset(Named(env, ks), x) ==>
              x.idx < s.counter || exists y :: y in Missing(signed, Named(env, ks), s) && x.idx <= y.idx
  {
    hide Restoring, Honest, Missing;
    forall x | x in signed && OfKeyset(Named(env, ks), x)
      ensures x.idx < Restoring(env, s, ks, a).0.counter <==>
              x.idx < s.counter || exists y :: y in Missing(signed, Named(env, ks), s) && x.idx <= y.idx
    {
      CounterAfterRestore(env, s, ks, a, signed, x.idx);
    }
  }

  /** Why proofs handed in must be from below the counter. Any wallet that holds a signed index at or above its counter,
      with no missing one as high, still has it at or above the counter after restoring, and the next swap large enough
      asks the mint for that index again. */
  lemma HeldIndexIsRequestedAgain(env: Env, s: State, ks: KeysetText, a: Attempt, signed: set<Secret>, x: Secret,
                                  keys: Keys, sigs: Result<seq<Signature>, Error>, save: Save)
    requires Honest(env, s, ks, a, signed)
    requires x in signed && OfKeyset(Named(env, ks), x) && x in SecretsOf(s.proofs) && s.counter <= x.idx <= U32_MAX
    requires forall y :: y in Missing(signed, Named(env, ks), s) ==> y.idx < x.idx
    requires env.decodeId(ks).Some? && forall i :: env.derivable(Named(env, ks), i)
    ensures var t := Restoring(env, s, ks, a).0;
            && t.counter <= x.idx && x in SecretsOf(t.proofs)
            && x in Requests(env, t, DoSwap(seq(x.idx + 1 - t.counter, _ => 1), ks, keys, sigs, save))
  {
    hide Restoring, Honest, Missing;
    CounterAfterRestore(env, s, ks, a, signed, x.idx);
    RestoreAddsMissing(env, s, ks, a, signed);
    var t := Restoring(env, s, ks, a).0;
    var i :| 0 <= i < |s.proofs| && s.proofs[i].secret == x;
    assert t.proofs[i].secret == x;
    assert Index(x.idx) == x.idx;
  }

  /** Such a wallet is one `add_proofs` away from an empty one. */
  lemma HandedInIndexIsHeldAbove(env: Env, p: Proof<Point>, ks: KeysetText, save: Save)
    requires OfKeyset(Named(env, ks), p.secret)
    ensures var s := Step(env, Load(env, None), DoAdd([p], save));
            && p.secret in SecretsOf(s.proofs) && s.counter <= p.secret.idx
            && Missing({p.secret}, Named(env, ks), s) == {}
  {
    var s := Step(env, Load(env, None), DoAdd([p], save));
    assert s.proofs == [p] && s.proofs[0].secret == p.secret;
  }

  // ---- Restoring twice ----

  /** Restoring is idempotent: against an unchanged mint whose signed indices lie in the first scan, a
      second restore adds nothing and changes neither counter, proofs nor store. */
  lemma RestoreTwice(env: Env, s: State, ks: KeysetText, first: Attempt, second: Attempt, signed: set<Secret>)
    requires !Restoring(env, s, ks, first).1.Refused? && Complete(signed, Named(env, ks), ScanEnd(s), first.entries)
    requires AllBelow(signed, Named(env, ks), ScanEnd(s)) && Truthful(signed, second.entries)
    ensures var t := Restoring(env, s, ks, first).0;
            Derivable(env, 0, ScanEnd(t), ks) ==> Restoring(env, t, ks, second) == (t, Done(0))
  {
    var t, id := Restoring(env, s, ks, first).0, Named(env, ks);
    AddsNothingElse(env, t, ks, second, signed);
    forall x | x in signed && Scanned(id, ScanEnd(t), x) ensures x in SecretsOf(t.proofs) {
      hide Restore, Complete, SecretsOf;
      RestoreRecovers(env, s, ks, first.keys, first.entries, first.save, signed, x);
    }
    NothingNewToScan(env, id, ScanEnd(t), second.keys, SecretsOf(t.proofs), second.entries);
    NothingChanges(env, t, ks, second);
  }

  lemma {:induction false} NothingNewToScan(env: Env, ks: KeysetId, end: nat, keys: Keys, known: set<Secret>,
                                            entries: seq<Restored>)
    requires forall k :: 0 <= k < |entries| && Scanned(ks, end, entries[k].y) ==> entries[k].y in known
    ensures Scan(env, ks, end, keys, known, entries) == Ok([])
    decreases |entries|
  {
    if entries == [] {
      assert Scan(env, ks, end, keys, known, entries) == Ok([]);
    } else {
      assert forall k :: 0 <= k < |entries| - 1 ==> entries[1..][k] == entries[k + 1];
      NothingNewToScan(env, ks, end, keys, known, entries[1..]);
    }
  }

  lemma NothingChanges(env: Env, t: State, ks: KeysetText, a: Attempt)
    requires Scan(env, Named(env, ks), ScanEnd(t), a.keys, SecretsOf(t.proofs), a.entries) == Ok([])
    ensures Derivable(env, 0, ScanEnd(t), ks) ==> Restoring(env, t, ks, a) == (t, Done(0))
  {
    assert t.proofs + [] == t.proofs;
  }

  // ---- After a request is lost ----

  /** Exactly which lost requests the headroom covers, from any saved orderly wallet: when answer and save are lost, all
      outputs asked for are signed, and the wallet crashes and restores, the counter is safe if and only if at most 64
      outputs were asked for. */
  lemma LostRequestSafeIff(env: Env, s: State, ev: Event, a: Attempt, signed: set<Secret>)
    requires Orderly(s.counter, s.proofs) && Stored(env, s.blob) == (s.counter, s.proofs)
    requires Asks(env, s, ev) && Asked(ev) > 0 && s.counter + Asked(ev) <= U32_MAX
    requires AllBelow(signed, Named(env, ev.ks), s.counter)
    requires Stored(env, Step(env, s, ev).blob) == Stored(env, s.blob)
    requires var crashed := Step(env, Step(env, s, ev), Crash);
             && !Restoring(env, crashed, ev.ks, a).1.Refused?
             && Complete(signed + Requests(env, s, ev), Named(env, ev.ks), ScanEnd(crashed), a.entries)
    ensures var crashed := Step(env, Step(env, s, ev), Crash);
            AllBelow(signed + Requests(env, s, ev), Named(env, ev.ks), Restoring(env, crashed, ev.ks, a).0.counter) <==>
            Asked(ev) <= RESTORE_HEADROOM
  {
    hide Step, Restore, Complete, Stored, Orderly, Asks;
    var crashed, all, id := Step(env, Step(env, s, ev), Crash), signed + Requests(env, s, ev), Named(env, ev.ks);
    CrashLoads(env, Step(env, s, ev));
    OrderlyHoldsBelow(all, id, crashed);
    RestoreSafeIffInHeadroom(env, crashed, ev.ks, a.keys, a.entries, a.save, all);
    var top := s.counter + Asked(ev) - 1;
    assert Index(top) == top;
    assert Derived(id, top) in Requests(env, s, ev);
  }

  lemma CrashLoads(env: Env, s: State)
    ensures (Step(env, s, Crash).counter, Step(env, s, Crash).proofs) == Stored(env, s.blob)
  {
  }

  // ---- After the store is lost ----

  /** After the store is lost the scan starts from nothing: one restore makes the counter safe if and only if
      the mint has signed no index of the keyset beyond the headroom. */
  lemma LostStoreSafeIffFewSigned(env: Env, bad: Blob, ks: KeysetText, a: Attempt, signed: set<Secret>)
    requires Envelope.Decode(env.codec, bad, env.seedId) == None
    requires !Restoring(env, Load(env, Some(bad)), ks, a).1.Refused?
    requires Complete(signed, Named(env, ks), RESTORE_HEADROOM, a.entries)
    ensures AllBelow(signed, Named(env, ks), Restoring(env, Load(env, Some(bad)), ks, a).0.counter) <==>
            AllBelow(signed, Named(env, ks), RESTORE_HEADROOM)
  {
    hide Restore, Complete, AllBelow, Stored;
    NothingIsOrderly(env, bad);
    OrderlyHoldsBelow(signed, Named(env, ks), Load(env, Some(bad)));
    RestoreSafeIffInHeadroom(env, Load(env, Some(bad)), ks, a.keys, a.entries, a.save, signed);
  }

  /** A wallet that never recovers: a swap of 65 outputs is refused by the mint, a swap of one output is signed at index
      65, and the store is lost. Every honest restore then adds nothing, and the signed output is not held. */
  lemma SkippedIndicesHideTheRest(env: Env, ks: KeysetText, keys: Keys, e: Error, sigs: Result<seq<Signature>, Error>,
                                  save: Save, bad: Blob, a: Attempt)
    requires Envelope.Decode(env.codec, bad, env.seedId) == None
    requires env.decodeId(ks).Some? && forall i :: env.derivable(Named(env, ks), i)
    ensures var refused := Step(env, Load(env, None), DoSwap(seq(65, _ => 1), ks, keys, Err(e), save));
            var swap := DoSwap([1], ks, keys, sigs, save);
            var signed := Requests(env, refused, swap);
            var lost := Step(env, Step(env, refused, swap), CrashLosing(bad));
            && signed == {Derived(Named(env, ks), 65)}
            && Honest(env, lost, ks, Attempt(keys, [], save), signed)
            && (Honest(env, lost, ks, a, signed) ==>
                  && Restoring(env, lost, ks, a).1 == Done(0)
                  && !AllHeld(signed, Named(env, ks), Restoring(env, lost, ks, a).0))
  {
    hide Step, Load, Stored, Requests, Honest, Restoring, AllHeld;
    var fresh0, big := Load(env, None), DoSwap(seq(65, _ => 1), ks, keys, Err(e), save);
    var refused, swap := Step(env, fresh0, big), DoSwap([1], ks, keys, sigs, save);
    EmptyLoads(env, bad, Step(env, refused, swap));
    AskingSaturates(env, fresh0, big);
    OneAt(env, refused, swap, 65);
    var lost, x := Step(env, Step(env, refused, swap), CrashLosing(bad)), Derived(Named(env, ks), 65);
    OutOfReach(env, lost, ks, Attempt(keys, [], save), x);
    OutOfReach(env, lost, ks, a, x);
  }

  lemma EmptyLoads(env: Env, bad: Blob, s: State)
    requires Envelope.Decode(env.codec, bad, env.seedId) == None
    ensures Load(env, None).counter == 0
    ensures var lost := Step(env, s, CrashLosing(bad));
            lost.counter == 0 && lost.proofs == []
  {
    hide Envelope.Decode;
  }

  lemma OneAt(env: Env, s: State, ev: Event, idx: nat)
    requires s.counter == idx <= U32_MAX && ev.DoSwap? && ev.amounts == [1]
    requires env.decodeId(ev.ks).Some? && forall i :: env.derivable(Named(env, ev.ks), i)
    ensures Requests(env, s, ev) == {Derived(Named(env, ev.ks), idx)}
  {
    assert Index(idx) == idx;
    assert Derived(Named(env, ev.ks), Index(idx)) in Requests(env, s, ev);
  }

  lemma OutOfReach(env: Env, lost: State, ks: KeysetText, a: Attempt, x: Secret)
    requires lost.counter == 0 && lost.proofs == [] && OfKeyset(Named(env, ks), x) && x.idx >= RESTORE_HEADROOM
    requires env.decodeId(ks).Some? && forall i :: env.derivable(Named(env, ks), i)
    ensures a.entries == [] ==> Honest(env, lost, ks, a, {x})
    ensures Honest(env, lost, ks, a, {x}) ==>
              && Restoring(env, lost, ks, a).1 == Done(0)
              && !AllHeld({x}, Named(env, ks), Restoring(env, lost, ks, a).0)
  {
    if Honest(env, lost, ks, a, {x}) {
      hide Restoring, Honest, Recovered;
      RestoreAddsMissing(env, lost, ks, a, {x});
      assert Missing({x}, Named(env, ks), lost) == {};
      NoSecretsNoProofs(Recovered(env, lost, ks, a));
    }
  }

  lemma NoSecretsNoProofs(ps: Proofs)
    ensures SecretsOf(ps) == {} <==> ps == []
  {
    if ps != [] {
      assert ps[0].secret in SecretsOf(ps);
    }
  }

  // ---- Restoring again and again ----

  // The state after several restores of one keyset.
  function Repeated(env: Env, s: State, ks: KeysetText, attempts: seq<Attempt>): State
  {
    if attempts == [] then s
    else
      var n := |attempts| - 1;
      Restoring(env, Repeated(env, s, ks, attempts[..n]), ks, attempts[n]).0
  }

  // Each of them goes through, against a mint that signs nothing in between and answers honestly.
  ghost predicate AllHonest(env: Env, s: State, ks: KeysetText, attempts: seq<Attempt>, signed: set<Secret>)
  {
    forall i :: 0 <= i < |attempts| ==> Honest(env, Repeated(env, s, ks, attempts[..i]), ks, attempts[i], signed)
  }

  lemma FrontHonest(env: Env, s: State, ks: KeysetText, attempts: seq<Attempt>, signed: set<Secret>)
    requires AllHonest(env, s, ks, attempts, signed) && attempts != []
    ensures AllHonest(env, s, ks, attempts[..|attempts| - 1], signed)
  {
    hide Honest;
    var front := attempts[..|attempts| - 1];
    assert forall i :: 0 <= i < |front| ==> front[..i] == attempts[..i] && front[i] == attempts[i];
  }

  // x is in the first scan, or within the headroom of a lower signed index.
  ghost predicate LinkedAt(signed: set<Secret>, ks: KeysetId, from: nat, x: Secret)
    requires x.Derived?
  {
    || x.idx < from + RESTORE_HEADROOM
    || exists y :: y in signed && OfKeyset(ks, y) && y.idx < x.idx <= y.idx + RESTORE_HEADROOM
  }

  // No gap between signed indices, nor before the first, is wider than the headroom.
  ghost predicate Linked(signed: set<Secret>, ks: KeysetId, from: nat)
  {
    forall x :: x in signed && OfKeyset(ks, x) ==> LinkedAt(signed, ks, from, x)
  }

  // The signed outputs that are not held at the start: only these can be restored.
  ghost function Unheld(signed: set<Secret>, s: State): set<Secret>
  {
    set x | x in signed && x !in SecretsOf(s.proofs)
  }

  // What several restores make of s, where u is what it does not hold.
  ghost predicate Reached(u: set<Secret>, ks: KeysetId, s: State, t: State)
  {
    && s.counter <= t.counter <= U32_MAX && SecretsOf(s.proofs) <= SecretsOf(t.proofs)
    && (t.counter == s.counter || exists y :: y in u && OfKeyset(ks, y) && y.idx + 1 == t.counter)
    && forall x :: x in u && OfKeyset(ks, x) ==>
         && (x.idx < t.counter ==> LinkedAt(u, ks, s.counter, x))
         && (x in SecretsOf(t.proofs) ==> x.idx < t.counter)
  }

  lemma ReachedStep(env: Env, s: State, t: State, ks: KeysetText, a: Attempt, signed: set<Secret>)
    requires Honest(env, t, ks, a, signed) && Reached(Unheld(signed, s), Named(env, ks), s, t)
    ensures Reached(Unheld(signed, s), Named(env, ks), s, Restoring(env, t, ks, a).0)
  {
    var id, u, t' := Named(env, ks), Unheld(signed, s), Restoring(env, t, ks, a).0;
    RestoreStaysInRange(env, t, ks, a.keys, a.entries, a.save);
    assert t'.counter <= t.counter + RESTORE_HEADROOM;
    HeldAfter(env, t, ks, a, signed);
    hide Honest, Restoring, SecretsOf;
    assert Missing(signed, id, t) <= u;
    hide Missing;
    CounterAfterRestore(env, t, ks, a, signed, t'.counter);
    if t'.counter > 0 {
      CounterAfterRestore(env, t, ks, a, signed, t'.counter - 1);
    }
    if t'.counter != t.counter {
      var y :| y in Missing(signed, id, t) && t'.counter - 1 <= y.idx;
      assert y.idx + 1 == t'.counter;
    }
    forall x | x in u && OfKeyset(id, x)
      ensures x.idx < t'.counter ==> LinkedAt(u, id, s.counter, x)
      ensures x in SecretsOf(t'.proofs) ==> x.idx < t'.counter
    {
      CounterAfterRestore(env, t, ks, a, signed, x.idx);
    }
  }

  // What is held after a restore, and that the counter does not fall.
  lemma HeldAfter(env: Env, s: State, ks: KeysetText, a: Attempt, signed: set<Secret>)
    requires Honest(env, s, ks, a, signed)
    ensures var t := Restoring(env, s, ks, a).0;
            && SecretsOf(t.proofs) == SecretsOf(s.proofs) + Missing(signed, Named(env, ks), s)
            && s.counter <= t.counter
  {
    hide Honest, Restoring, Missing, Recovered;
    RestoreAddsMissing(env, s, ks, a, signed);
    SecretsOfBoth(s.proofs, Recovered(env, s, ks, a));
  }

  lemma SecretsOfBoth(a: Proofs, b: Proofs)
    ensures SecretsOf(a + b) == SecretsOf(a) + SecretsOf(b)
  {
    forall x | x in SecretsOf(a) ensures x in SecretsOf(a + b) {
      var i :| 0 <= i < |a| && a[i].secret == x;
      assert (a + b)[i].secret == x;
    }
    forall x | x in SecretsOf(b) ensures x in SecretsOf(a + b) {
      var i :| 0 <= i < |b| && b[i].secret == x;
      assert (a + b)[|a| + i].secret == x;
    }
  }

  lemma {:induction false} ReachedByRestores(env: Env, s: State, ks: KeysetText, attempts: seq<Attempt>,
                                             signed: set<Secret>)
    requires s.counter <= U32_MAX && AllHonest(env, s, ks, attempts, signed)
    ensures Reached(Unheld(signed, s), Named(env, ks), s, Repeated(env, s, ks, attempts))
  {
    hide Honest, Restoring;
    if attempts == [] {
      assert Repeated(env, s, ks, attempts) == s;
    } else {
      var n := |attempts| - 1;
      FrontHonest(env, s, ks, attempts, signed);
      ReachedByRestores(env, s, ks, attempts[..n], signed);
      ReachedStep(env, s, Repeated(env, s, ks, attempts[..n]), ks, attempts[n], signed);
    }
  }

  ghost predicate AllHeld(signed: set<Secret>, ks: KeysetId, s: State)
  {
    forall x :: x in signed && OfKeyset(ks, x) ==> x in SecretsOf(s.proofs)
  }

  // Once a restore adds nothing, every signed index in its range is held, so none lies between counter and range.
  lemma NothingLeft(env: Env, t: State, ks: KeysetText, last: Attempt, signed: set<Secret>, x: Secret)
    requires Honest(env, t, ks, last, signed) && Restoring(env, t, ks, last).1 == Done(0)
    requires x in signed && Scanned(Named(env, ks), ScanEnd(t), x)
    ensures x in SecretsOf(t.proofs)
  {
    hide Honest, Restoring, Recovered;
    RestoreAddsMissing(env, t, ks, last, signed);
    assert SecretsOf([]) == {};
  }

  // Linked indices cannot jump over a stretch of the headroom's width without a signed index in it.
  lemma {:induction false} LinkedReachesAll(signed: set<Secret>, ks: KeysetId, from: nat, c: nat, x: Secret)
    requires Linked(signed, ks, from) && from <= c && x in signed && OfKeyset(ks, x)
    requires forall y :: y in signed && OfKeyset(ks, y) ==> y.idx < c || c + RESTORE_HEADROOM <= y.idx
    ensures x.idx < c
    decreases x.idx
  {
    if x.idx >= c {
      assert LinkedAt(signed, ks, from, x);
      var y :| y in signed && OfKeyset(ks, y) && y.idx < x.idx <= y.idx + RESTORE_HEADROOM;
      LinkedReachesAll(signed, ks, from, c, y);
      assert false;
    }
  }

  // Every signed index held at the start is below the counter, or an index to be restored is at least as high.
  ghost predicate HeldOvertaken(signed: set<Secret>, ks: KeysetId, s: State)
  {
    forall x :: x in signed && OfKeyset(ks, x) && x in SecretsOf(s.proofs) ==>
      x.idx < s.counter || exists y :: y in Unheld(signed, s) && OfKeyset(ks, y) && x.idx <= y.idx
  }

  /** Exactly what repeated restores reach, whatever the wallet holds: when one of them adds nothing more, every signed
      output of the keyset is held if and only if, among those not held at the start, no gap between indices, nor from
      the counter to the first of them, is wider than the headroom. Every signed index is below the counter if and only
      if, besides, those held at the start are overtaken. */
  lemma RepeatedRestoresRecoverIff(env: Env, s: State, ks: KeysetText, attempts: seq<Attempt>, last: Attempt,
                                   signed: set<Secret>)
    requires s.counter <= U32_MAX && AllBelow(signed, Named(env, ks), U32_MAX)
    requires AllHonest(env, s, ks, attempts, signed)
    requires var t := Repeated(env, s, ks, attempts);
             Honest(env, t, ks, last, signed) && Restoring(env, t, ks, last).1 == Done(0)
    ensures var t, id := Repeated(env, s, ks, attempts), Named(env, ks);
            var linked := Linked(Unheld(signed, s), id, s.counter);
            && (AllHeld(signed, id, t) <==> linked)
            && (AllBelow(signed, id, t.counter) <==> linked && HeldOvertaken(signed, id, s))
  {
    hide Honest, Restoring, AllHonest, SecretsOf;
    var t, id, u := Repeated(env, s, ks, attempts), Named(env, ks), Unheld(signed, s);
    ReachedByRestores(env, s, ks, attempts, signed);
    hide Repeated, LinkedAt;
    forall x | x in signed && OfKeyset(id, x)
      ensures x in u ==> x.idx < t.counter || t.counter + RESTORE_HEADROOM <= x.idx
      ensures x in u ==> (x in SecretsOf(t.proofs) <==> x.idx < t.counter)
      ensures x !in u ==> x in SecretsOf(t.proofs)
    {
      if x.idx < ScanEnd(t) {
        NothingLeft(env, t, ks, last, signed, x);
      }
    }
    if Linked(u, id, s.counter) {
      forall x | x in u && OfKeyset(id, x) ensures x.idx < t.counter {
        LinkedReachesAll(u, id, s.counter, t.counter, x);
      }
    }
    if forall x :: x in u && OfKeyset(id, x) ==> x.idx < t.counter {
      OvertakenIff(signed, id, s, t);
    }
  }

  lemma OvertakenIff(signed: set<Secret>, ks: KeysetId, s: State, t: State)
    requires Reached(Unheld(signed, s), ks, s, t)
    requires forall x :: x in Unheld(signed, s) && OfKeyset(ks, x) ==> x.idx < t.counter
    ensures AllBelow(signed, ks, t.counter) <==> HeldOvertaken(signed, ks, s)
  {
    hide SecretsOf, LinkedAt;
  }

  /** Restoring until nothing is added ends: as long as each restore adds something, there were no more of them than
      outputs signed. */
  lemma {:induction false} RestoresEnd(env: Env, s: State, ks: KeysetText, attempts: seq<Attempt>, signed: set<Secret>)
    requires AllHonest(env, s, ks, attempts, signed)
    requires forall i :: 0 <= i < |attempts| ==>
               Restoring(env, Repeated(env, s, ks, attempts[..i]), ks, attempts[i]).1 != Done(0)
    ensures |attempts| <= |SecretsOf(Repeated(env, s, ks, attempts).proofs) * signed| <= |signed|
  {
    hide Honest, Restoring, SecretsOf;
    var t := Repeated(env, s, ks, attempts);
    if attempts == [] {
      SubsetSize(SecretsOf(t.proofs) * signed, signed);
    } else {
      var n := |attempts| - 1;
      var front := attempts[..n];
      assert forall i :: 0 <= i < |front| ==> front[..i] == attempts[..i] && front[i] == attempts[i];
      FrontHonest(env, s, ks, attempts, signed);
      RestoresEnd(env, s, ks, front, signed);
      var u := Repeated(env, s, ks, front);
      RestoreHoldsMore(env, u, ks, attempts[n], signed);
      SubsetSize(SecretsOf(t.proofs) * signed, signed);
    }
  }

  lemma SubsetSize(a: set<Secret>, b: set<Secret>)
    requires a <= b
    ensures |a| <= |b|
  {
    assert b == a + (b - a);
  }

  lemma RestoreHoldsMore(env: Env, s: State, ks: KeysetText, a: Attempt, signed: set<Secret>)
    requires Honest(env, s, ks, a, signed) && Restoring(env, s, ks, a).1 != Done(0)
    ensures |SecretsOf(s.proofs) * signed| < |SecretsOf(Restoring(env, s, ks, a).0.proofs) * signed|
  {
    hide Honest, Restoring, Recovered;
    RestoreAddsMissing(env, s, ks, a, signed);
    var t, ps := Restoring(env, s, ks, a).0, Recovered(env, s, ks, a);
    var x := ps[0].secret;
    assert x in SecretsOf(ps);
    assert t.proofs[|s.proofs|].secret == x;
    forall y | y in SecretsOf(s.proofs) ensures y in SecretsOf(t.proofs) {
      var i :| 0 <= i < |s.proofs| && s.proofs[i].secret == y;
      assert t.proofs[i].secret == y;
    }
    hide SecretsOf;
    SubsetSize(SecretsOf(s.proofs) * signed + {x}, SecretsOf(t.proofs) * signed);
  }

  /** After the store is lost, restoring until nothing is added recovers every signed output of the keyset if and only
      if no gap between signed indices, nor before the first, is wider than the headroom. */
  lemma LostStoreRecoversIff(env: Env, bad: Blob, ks: KeysetText, attempts: seq<Attempt>, last: Attempt,
                             signed: set<Secret>)
    requires Envelope.Decode(env.codec, bad, env.seedId) == None && AllBelow(signed, Named(env, ks), U32_MAX)
    requires AllHonest(env, Load(env, Some(bad)), ks, attempts, signed)
    requires var t := Repeated(env, Load(env, Some(bad)), ks, attempts);
             Honest(env, t, ks, last, signed) && Restoring(env, t, ks, last).1 == Done(0)
    ensures AllHeld(signed, Named(env, ks), Repeated(env, Load(env, Some(bad)), ks, attempts)) <==>
            Linked(signed, Named(env, ks), 0)
  {
    hide Honest, Restoring, Orderly, AllHonest, Repeated, Stored, Linked, AllHeld;
    NothingIsOrderly(env, bad);
    assert Unheld(signed, Load(env, Some(bad))) == signed;
    RepeatedRestoresRecoverIff(env, Load(env, Some(bad)), ks, attempts, last, signed);
  }
}
