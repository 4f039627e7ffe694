/**
 The wallet object of cashu-core-lite/src/persistent.rs: its fields, and its methods statement by
 statement. Each method leaves the state, and returns the outcome, that the specification function
 of the same name in module `Wallet` gives for the state it started in.
 */
module PersistentWallets {
  import opened Results
  import opened Amounts
  import opened Ecash
  import opened Denominations
  import opened Selection
  import opened Wallet
  import ExactSearch
  import Envelope

  lemma {:induction false} FaultAt(env: Env, keys: Keys, ps: Proofs, i: nat)
    requires i < |ps| && AllVerified(env, keys, ps[..i]) && !Verified(env, keys, ps[i])
    ensures !AllVerified(env, keys, ps)
    ensures FirstFault(env, keys, ps) ==
            if ps[i].dleq.Some? && KeyFor(keys, ps[i].amount).None? then KeysetNotFound else Crypto
  {
    if i == 0 {
    } else {
      assert ps[..i][0] == ps[0];
      assert ps[1..][..i - 1] == ps[1..i];
      forall j | 0 <= j < i - 1 ensures Verified(env, keys, ps[1..i][j]) {
        assert ps[1..i][j] == ps[..i][j + 1];
      }
      FaultAt(env, keys, ps[1..], i - 1);
    }
  }

  // Proof j is the first at fault, and this is its fault.
  ghost predicate FaultIs(env: Env, keys: Keys, ps: Proofs, j: nat, e: Error)
  {
    && j < |ps| && !CheckedUnder(env, keys, ps[j]) && (forall h :: 0 <= h < j ==> CheckedUnder(env, keys, ps[h]))
    && e == if ps[j].dleq.Some? && (forall i :: 0 <= i < |keys| ==> keys[i].amount != ps[j].amount) then KeysetNotFound
            else Crypto
  }

  lemma GateIff(env: Env, keys: Keys, ps: Proofs)
    ensures AllVerified(env, keys, ps) <==> forall j :: 0 <= j < |ps| ==> CheckedUnder(env, keys, ps[j])
    ensures !AllVerified(env, keys, ps) ==> exists j :: FaultIs(env, keys, ps, j, FirstFault(env, keys, ps))
  {
    hide Verified, CheckedUnder;
    forall j | 0 <= j < |ps| ensures Verified(env, keys, ps[j]) <==> CheckedUnder(env, keys, ps[j]) {
      VerifiedIffChecked(env, keys, ps[j]);
    }
    if !AllVerified(env, keys, ps) {
      var j := FirstUnverified(env, keys, ps);
      FaultAt(env, keys, ps, j);
      KeyListed(keys, ps[j].amount);
      assert FaultIs(env, keys, ps, j, FirstFault(env, keys, ps));
    }
  }

  lemma KeyListed(keys: Keys, amount: u64)
    ensures KeyFor(keys, amount).None? <==> forall i :: 0 <= i < |keys| ==> keys[i].amount != amount
  {
  }

  lemma FirstUnverified(env: Env, keys: Keys, ps: Proofs) returns (j: nat)
    requires !AllVerified(env, keys, ps)
    ensures j < |ps| && !Verified(env, keys, ps[j]) && forall h :: 0 <= h < j ==> Verified(env, keys, ps[h])
  {
    hide Verified;
    j := 0;
    while Verified(env, keys, ps[j])
      invariant 0 <= j < |ps| && forall h :: 0 <= h < j ==> Verified(env, keys, ps[h])
      decreases |ps| - j
    {
      j := j + 1;
    }
  }

  // The restore loop so far: `restored` was kept, `rest` is what the remaining entries give.
  function Kept(restored: Proofs, rest: Result<Proofs, Error>): Result<Proofs, Error>
  {
    match rest
    case Err(e) => Err(e)
    case Ok(ps) => Ok(restored + ps)
  }

  lemma KeepOne(restored: Proofs, p: Proof<Point>, rest: Result<Proofs, Error>)
    ensures Kept(restored + [p], rest) == Kept(restored, Kept([p], rest))
  {
    if rest.Ok? {
      assert (restored + [p]) + rest.value == restored + ([p] + rest.value);
    }
  }

  lemma PastOne(counter: nat, ps: Proofs, p: Proof<Point>)
    ensures Past(counter, ps + [p]) ==
            var c := Past(counter, ps);
            if p.secret.Derived? && p.secret.idx + 1 > c then p.secret.idx + 1 else c
  {
    assert (ps + [p])[..|ps|] == ps;
  }

  lemma AmountIsPassed(unblind: Unblind<Point>, p: PendingOutput, sig: Signature, keys: Keys)
    ensures UnblindOne(unblind, p.(amount := sig.amount), sig.amount, sig, keys) ==
            UnblindOne(unblind, p, sig.amount, sig, keys)
  {
  }

  class PersistentWallet {
    const env: Env
    var counter: nat
    var proofs: Proofs
    var blob: Option<Blob>

    function Now(): State
      reads this
    {
      State(counter, proofs, blob)
    }

    constructor (env: Env, blob: Option<Blob>)
      ensures this.env == env && Now() == Load(env, blob)
    {
      var loaded := Stored(env, blob);
      this.env := env;
      this.counter, this.proofs, this.blob := loaded.0, loaded.1, blob;
    }

    /** `new`: an error of the store's `load` is passed on, and anything it returns is loaded. */
    static method Open(env: Env, loaded: Result<Option<Blob>, Error>) returns (r: Result<PersistentWallet, Error>)
      ensures loaded.Err? ==> r == Err(loaded.error)
      ensures loaded.Ok? ==> r.Ok? && fresh(r.value) && r.value.env == env && r.value.Now() == Load(env, loaded.value)
    {
      if loaded.Err? {
        return Err(loaded.error);
      }
      var wallet := new PersistentWallet(env, loaded.value);
      r := Ok(wallet);
    }

    method SaveBlob(save: Save) returns (ok: bool)
      modifies this`blob
      ensures Now() == Persist(env, old(Now()), save) && ok == (save == Saved)
    {
      var bytes := Envelope.Encode(env.codec, counter, proofs, env.seedId);
      if save != FailedOld {
        blob := Some(bytes);
      }
      ok := save == Saved;
    }

    /** The fail-closed NUT-12 gate: it passes exactly the lists in which every proof carries a DLEQ proof that holds
        under the first key listed for its amount; otherwise the first proof at fault decides the error. */
    method VerifyFresh(ps: Proofs, keys: Keys) returns (r: Option<Error>)
      ensures r == if AllVerified(env, keys, ps) then None else Some(FirstFault(env, keys, ps))
      ensures r.None? <==> forall j :: 0 <= j < |ps| ==> CheckedUnder(env, keys, ps[j])
      ensures r.Some? ==> exists j :: FaultIs(env, keys, ps, j, r.value)
    {
      GateIff(env, keys, ps);
      for i := 0 to |ps|
        invariant AllVerified(env, keys, ps[..i])
      {
        var p := ps[i];
        if p.dleq.None? {
          FaultAt(env, keys, ps, i);
          return Some(Crypto);
        }
        var key := KeyFor(keys, p.amount);
        if key.None? {
          FaultAt(env, keys, ps, i);
          return Some(KeysetNotFound);
        }
        if !env.verifyDleq(p.secret, p.c, p.dleq.value, key.value) {
          FaultAt(env, keys, ps, i);
          return Some(Crypto);
        }
      }
      assert ps[..|ps|] == ps;
      r := None;
    }

    method DeterministicOutputs(amounts: seq<u64>, ks: KeysetText) returns (r: Result<seq<PendingOutput>, Error>)
      ensures r == if Derivable(env, counter, |amounts|, ks) then Ok(Outputs(env, counter, amounts, ks))
                   else Err(NotDerivable(env, ks))
    {
      var pending := [];
      for i := 0 to |amounts|
        invariant Derivable(env, counter, i, ks)
        invariant pending == Outputs(env, counter, amounts, ks)[..i]
      {
        var idx, id := Index(counter + i), env.decodeId(ks);
        if id.None? {
          return Err(Protocol);
        }
        assert id.value == Named(env, ks);
        if !env.derivable(id.value, idx) {
          return Err(Crypto);
        }
        pending := pending + [PendingOutput(Derived(id.value, idx), env.blinder(id.value, idx), amounts[i])];
      }
      assert Outputs(env, counter, amounts, ks)[..|amounts|] == Outputs(env, counter, amounts, ks);
      r := Ok(pending);
    }

    // Outputs, request, unblinding and verification: the part mint and swap share in the source.
    method CreditProofs(amounts: seq<u64>, ks: KeysetText, keys: Keys, reply: Result<seq<Signature>, Error>, save: Save)
      returns (r: Outcome<Proofs>)
      modifies this
      ensures (Now(), r) == Credit(env, old(Now()), amounts, ks, keys, reply, save)
    {
      var outputs := DeterministicOutputs(amounts, ks);
      if outputs.Err? {
        return Refused(outputs.error);
      }
      counter := Advance(counter, |amounts|);
      if reply.Err? {
        return Refused(reply.error);
      }
      var ps := UnblindToProofs(env.unblind, outputs.value, reply.value, keys);
      if ps.Err? {
        return Refused(ps.error);
      }
      var fault := VerifyFresh(ps.value, keys);
      if fault.Some? {
        return Refused(fault.value);
      }
      proofs := proofs + ps.value;
      var ok := SaveBlob(save);
      r := if ok then Done(ps.value) else SaveFailed;
    }

    method MintDeterministic(amount: u64, ks: KeysetText, keys: Keys, reply: Result<seq<Signature>, Error>, save: Save)
      returns (r: Outcome<nat>)
      modifies this
      ensures (Now(), r) == Mint(env, old(Now()), amount, ks, keys, reply, save)
    {
      var denominations := DecomposeAmount(amount);
      if denominations == [] {
        return Refused(InvalidAmount);
      }
      var credited := CreditProofs(denominations, ks, keys, reply, save);
      match credited
      case Done(ps) => r := Done(Balance(ps));
      case Refused(e) => r := Refused(e);
      case SaveFailed => r := SaveFailed;
    }

    method SwapDeterministic(amounts: seq<u64>, ks: KeysetText, keys: Keys, reply: Result<seq<Signature>, Error>,
                             save: Save) returns (r: Outcome<Proofs>)
      modifies this
      ensures (Now(), r) == Swap(env, old(Now()), amounts, ks, keys, reply, save)
    {
      if amounts == [] {
        return Refused(InvalidAmount);
      }
      r := CreditProofs(amounts, ks, keys, reply, save);
    }

    method SpendProofs(amount: u64, save: Save) returns (r: Outcome<Proofs>)
      modifies this
      ensures (Now(), r) == Spend(env, old(Now()), amount, save)
    {
      if amount == 0 {
        return Refused(InvalidAmount);
      }
      if Balance(proofs) < amount {
        return Refused(InsufficientInputs);
      }
      var positions := SelectForSpend(AmountsOf(proofs), amount);
      var selected := ProofsAt(proofs, positions);
      proofs := Without(proofs, selected);
      var ok := SaveBlob(save);
      r := if ok then Done(selected) else SaveFailed;
    }

    /** `undo_spend` and `add_proofs`. */
    method AddProofs(ps: Proofs, save: Save) returns (r: Outcome<()>)
      modifies this
      ensures (Now(), r) == Add(env, old(Now()), ps, save)
    {
      proofs := proofs + ps;
      var ok := SaveBlob(save);
      r := if ok then Done(()) else SaveFailed;
    }

    method RemoveProofs(ps: Proofs, save: Save) returns (r: Outcome<()>)
      modifies this
      ensures (Now(), r) == Remove(env, old(Now()), ps, save)
    {
      proofs := Without(proofs, ps);
      var ok := SaveBlob(save);
      r := if ok then Done(()) else SaveFailed;
    }

    // The loop over the mint's change signatures: as many as there are both blanks and signatures.
    method CollectChange(blanks: seq<PendingOutput>, change: seq<Signature>, keys: Keys)
      returns (r: Result<Proofs, Error>)
      ensures r == ChangeProofs(env, blanks, change, keys)
    {
      hide UnblindAll, UnblindOne, Prepended, Paired;
      ghost var pending := Paired(blanks, change);
      ghost var sigs := change[..|pending|];
      var ps: Proofs := [];
      var i := 0;
      UnblindFromStart(env.unblind, pending, sigs, keys);
      while i < |blanks| && i < |change|
        invariant 0 <= i <= |pending|
        invariant Prepended(ps, UnblindAll(env.unblind, pending[i..], sigs[i..], keys)) ==
                  UnblindAll(env.unblind, pending, sigs, keys)
      {
        UnblindFrom(env.unblind, pending, sigs, keys, i, ps);
        var one := UnblindOne(env.unblind, blanks[i], change[i].amount, change[i], keys);
        AmountIsPassed(env.unblind, blanks[i], change[i], keys);
        if one.Err? {
          return Err(one.error);
        }
        ps := ps + [one.value];
        i := i + 1;
      }
      UnblindFrom(env.unblind, pending, sigs, keys, i, ps);
      r := Ok(ps);
    }

    method MeltDeterministic(invoice: u64, fee: u64, ks: KeysetText, keys: Keys, reply: Result<MeltReply, Error>,
                             save: Save) returns (r: Outcome<MeltOutcome>)
      modifies this
      ensures (Now(), r) == Melt(env, old(Now()), invoice, fee, ks, keys, reply, save)
    {
      hide ChangeProofs, AllVerified, FirstFault, Decomposed, Outputs, Derivable, Without, Balance, Persist, Largest,
           ProofsAt;
      if invoice + fee > U64_MAX || invoice + fee == 0 {
        return Refused(InvalidAmount);
      }
      var needed: u64 := invoice + fee;
      if Balance(proofs) < needed {
        return Refused(InsufficientInputs);
      }
      var positions := SelectCovering(AmountsOf(proofs), needed);
      var selected := ProofsAt(proofs, positions);
      var blankAmounts := DecomposeAmount(fee);
      var blanks := DeterministicOutputs(blankAmounts, ks);
      if blanks.Err? {
        return Refused(blanks.error);
      }
      counter := Advance(counter, |blankAmounts|);
      if reply.Err? {
        return Refused(reply.error);
      }
      if !reply.value.paid {
        var saved := SaveBlob(save);
        return if saved then Done(MeltOutcome(false, 0)) else SaveFailed;
      }
      var change: Result<Proofs, Error> := Ok([]);
      if reply.value.change.Some? {
        change := CollectChange(blanks.value, reply.value.change.value, keys);
      }
      if change.Err? {
        return Refused(change.error);
      }
      var fault := VerifyFresh(change.value, keys);
      if fault.Some? {
        return Refused(fault.value);
      }
      proofs := Without(proofs, selected) + change.value;
      var ok := SaveBlob(save);
      r := if ok then Done(MeltOutcome(true, Balance(change.value))) else SaveFailed;
    }

    // The loop over the mint's answer to a restore request.
    method CollectRestored(ks: KeysetId, end: nat, keys: Keys, entries: seq<Restored>)
      returns (r: Result<Proofs, Error>, next: nat)
      ensures r == Scan(env, ks, end, keys, SecretsOf(proofs), entries)
      ensures r.Ok? ==> next == Past(counter, r.value)
    {
      ghost var all := Scan(env, ks, end, keys, SecretsOf(proofs), entries);
      var known, restored, maxIdx: Option<nat> := SecretsOf(proofs), [], None;
      var i := 0;
      assert entries[0..] == entries;
      assert all.Ok? ==> [] + all.value == all.value;
      while i < |entries|
        invariant 0 <= i <= |entries|
        invariant Kept(restored, Scan(env, ks, end, keys, known, entries[i..])) == all
        invariant Past(counter, restored) ==
                  if maxIdx.Some? && maxIdx.value + 1 > counter then maxIdx.value + 1 else counter
      {
        var out := entries[i];
        assert entries[i..][1..] == entries[i + 1..];
        if Scanned(ks, end, out.y) && out.y !in known {
          var p := UnblindOne(env.unblind, PendingOutput(out.y, env.blinder(ks, out.y.idx), out.signature.amount),
            out.signature.amount, out.signature, keys);
          if p.Err? {
            return Err(p.error), counter;
          }
          KeepOne(restored, p.value, Scan(env, ks, end, keys, known + {out.y}, entries[i + 1..]));
          PastOne(counter, restored, p.value);
          restored, known := restored + [p.value], known + {out.y};
          maxIdx := Some(if maxIdx.Some? && maxIdx.value > out.y.idx then maxIdx.value else out.y.idx);
        }
        i := i + 1;
      }
      assert restored + [] == restored;
      r := Ok(restored);
      next := if maxIdx.Some? && maxIdx.value + 1 > counter then maxIdx.value + 1 else counter;
    }

    method RestoreFromMint(ks: KeysetText, keys: Keys, reply: Result<seq<Restored>, Error>, save: Save)
      returns (r: Outcome<nat>)
      modifies this
      ensures (Now(), r) == Restore(env, old(Now()), ks, keys, reply, save)
    {
      var end := Advance(counter, RESTORE_HEADROOM);
      for idx := 0 to end
        invariant Derivable(env, 0, idx, ks)
      {
        if env.decodeId(ks).None? {
          return Refused(Protocol);
        }
        assert env.decodeId(ks).value == Named(env, ks) && Index(idx) == idx;
        if !env.derivable(env.decodeId(ks).value, idx) {
          return Refused(Crypto);
        }
      }
      if reply.Err? {
        return Refused(reply.error);
      }
      var restored, next := CollectRestored(Named(env, ks), end, keys, reply.value);
      if restored.Err? {
        return Refused(restored.error);
      }
      var fault := VerifyFresh(restored.value, keys);
      if fault.Some? {
        return Refused(fault.value);
      }
      proofs := proofs + restored.value;
      counter := next;
      if |restored.value| > 0 {
        var ok := SaveBlob(save);
        return if ok then Done(|restored.value|) else SaveFailed;
      }
      r := Done(0);
    }

    /** `find_exact`: changes nothing; a hit is a sub-multiset of the stored proofs worth exactly the
        amount, and a miss within the node cap means that there is none. */
    method FindExact(amount: u64) returns (r: Option<Proofs>, nodes: nat)
      ensures r.Some? ==> Balance(r.value) == amount && multiset(r.value) <= multiset(proofs)
      ensures r.None? && amount > 0 && (nodes < ExactSearch.NODE_CAP || ExactSearch.WithinCap(AmountsOf(proofs))) ==>
                ExactSearch.NoSubset(AmountsOf(proofs), amount)
    {
      var positions;
      positions, nodes := ExactSearch.FindExact(AmountsOf(proofs), amount);
      if positions.None? {
        return None, nodes;
      }
      var found := ProofsAt(proofs, positions.value);
      assert AmountsOf(found) == At(AmountsOf(proofs), positions.value);
      DistinctPositions(proofs, positions.value);
      r := Some(found);
    }
  }

  lemma MiddleOut(a: Proofs, x: Proof<Point>, b: Proofs)
    ensures multiset(a + [x] + b) == multiset(a + b) + multiset{x}
  {
  }

  // Distinct positions below n.
  ghost predicate Distinct(positions: seq<nat>, n: nat)
  {
    && (forall i :: 0 <= i < |positions| ==> positions[i] < n)
    && (forall i, j :: 0 <= i < j < |positions| ==> positions[i] != positions[j])
  }

  // Proofs at distinct positions form a sub-multiset.
  lemma {:induction false} DistinctPositions(ps: Proofs, positions: seq<nat>)
    requires Distinct(positions, |ps|)
    ensures multiset(ProofsAt(ps, positions)) <= multiset(ps)
    decreases |ps|
  {
    if positions != [] {
      assert positions[0] < |ps|;
      var last := |ps| - 1;
      MiddleOut(ps[..last], ps[last], []);
      assert ps[..last] + [ps[last]] + [] == ps && ps[..last] + [] == ps[..last];
      if last in positions {
        var k :| 0 <= k < |positions| && positions[k] == last;
        TakeOut(ps, positions, k);
        hide Distinct, ProofsAt;
        DistinctPositions(ps[..last], positions[..k] + positions[k + 1..]);
      } else {
        LeaveOut(ps, positions);
        hide Distinct, ProofsAt;
        DistinctPositions(ps[..last], positions);
      }
    }
  }

  lemma LeaveOut(ps: Proofs, positions: seq<nat>)
    requires Distinct(positions, |ps|) && ps != [] && |ps| - 1 !in positions
    ensures Distinct(positions, |ps| - 1) && ProofsAt(ps[..|ps| - 1], positions) == ProofsAt(ps, positions)
  {
  }

  lemma TakeOut(ps: Proofs, positions: seq<nat>, k: nat)
    requires Distinct(positions, |ps|) && k < |positions| && positions[k] == |ps| - 1
    ensures var front, rest := ps[..|ps| - 1], positions[..k] + positions[k + 1..];
            && Distinct(rest, |front|)
            && multiset(ProofsAt(ps, positions)) == multiset(ProofsAt(front, rest)) + multiset{ps[|ps| - 1]}
  {
    var front, rest := ps[..|ps| - 1], positions[..k] + positions[k + 1..];
    forall i | 0 <= i < |rest| ensures rest[i] < |front| {
      assert rest[i] == positions[if i < k then i else i + 1];
    }
    var a, b := ProofsAt(ps, positions[..k]), ProofsAt(ps, positions[k + 1..]);
    assert ProofsAt(ps, positions) == a + [ps[|ps| - 1]] + b;
    assert ProofsAt(front, rest) == a + b;
    MiddleOut(a, ps[|ps| - 1], b);
  }
}
