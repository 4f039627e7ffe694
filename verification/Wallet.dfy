/**
 The persistent wallet (cashu-core-lite/src/persistent.rs): a derivation counter, a list of proofs
 and a stored blob.

 `Wallet` gives every operation as a function from state to state; the class `PersistentWallet`
 is the source's object, each of its methods proved against that function. What the mint answers
 and how a save ends are arguments, so an operation is covered for every answer and every failure.
 */
module Wallet {
  import opened Results
  import opened Amounts
  import opened Ecash
  import opened Denominations
  import opened Selection
  import Crc
  import Envelope

  const RESTORE_HEADROOM := 64
  const U32_MAX := 0xFFFF_FFFF

  type Point = nat
  type Proofs = seq<Proof<Point>>
  type Signature = BlindSignature<Point>
  type Keys = seq<KeyPair<Point>>
  type Blob = seq<Crc.Byte>

  // What the wallet is built on: the curve, NUT-12 verification, NUT-13 derivation (which may fail),
  // the CBOR codec, and the fingerprint of its seed. Derivation trims and hex-decodes the keyset id.
  datatype Env = Env(
    decodeId: KeysetText -> Option<KeysetId>,
    unblind: Unblind<Point>,
    verifyDleq: (Secret, Point, ProofDleq, Point) -> bool,
    derivable: (KeysetId, nat) -> bool,
    blinder: (KeysetId, nat) -> nat,
    codec: Envelope.Codec<Proof<Point>>,
    seedId: seq<Crc.Byte>)

  datatype State = State(counter: nat, proofs: Proofs, blob: Option<Blob>)

  // A call either finishes, is refused before its final save, or fails in that save.
  datatype Outcome<+T> = Done(value: T) | Refused(error: Error) | SaveFailed

  // A save is atomic: afterwards the store holds the old blob or the new one, also when it reports failure.
  datatype Save = Saved | FailedOld | FailedNew

  // ---- Loading and saving ----

  function Stored(env: Env, blob: Option<Blob>): (nat, Proofs)
  {
    match blob
    case None => (0, [])
    case Some(b) =>
      match Envelope.Decode(env.codec, b, env.seedId)
      case None => (0, [])
      case Some(x) => x
  }

  // `new`: a missing, corrupt or foreign blob starts a fresh wallet.
  function Load(env: Env, blob: Option<Blob>): State
  {
    State(Stored(env, blob).0, Stored(env, blob).1, blob)
  }

  function Persist(env: Env, s: State, save: Save): State
  {
    if save == FailedOld then s
    else s.(blob := Some(Envelope.Encode(env.codec, s.counter, s.proofs, env.seedId)))
  }

  function Finish<T>(env: Env, s: State, save: Save, value: T): (State, Outcome<T>)
  {
    (Persist(env, s, save), if save == Saved then Done(value) else SaveFailed)
  }

  // ---- Verification ----

  predicate Verified(env: Env, keys: Keys, p: Proof<Point>)
  {
    && p.dleq.Some?
    && KeyFor(keys, p.amount).Some?
    && env.verifyDleq(p.secret, p.c, p.dleq.value, KeyFor(keys, p.amount).value)
  }

  // The same said of the key list: a DLEQ proof that holds under the first key listed for the amount.
  ghost predicate CheckedUnder(env: Env, keys: Keys, p: Proof<Point>)
  {
    && p.dleq.Some?
    && exists i :: FirstKey(keys, p.amount, i) && env.verifyDleq(p.secret, p.c, p.dleq.value, keys[i].pubkey)
  }

  lemma VerifiedIffChecked(env: Env, keys: Keys, p: Proof<Point>)
    ensures Verified(env, keys, p) <==> CheckedUnder(env, keys, p)
  {
    if p.dleq.Some? && (exists i :: FirstKey(keys, p.amount, i)
                                    && env.verifyDleq(p.secret, p.c, p.dleq.value, keys[i].pubkey)) {
      var i :| FirstKey(keys, p.amount, i) && env.verifyDleq(p.secret, p.c, p.dleq.value, keys[i].pubkey);
      FirstKeyIsUnique(keys, p.amount, i);
    }
  }

  predicate AllVerified(env: Env, keys: Keys, ps: Proofs)
  {
    forall i :: 0 <= i < |ps| ==> Verified(env, keys, ps[i])
  }

  // Why the first proof that does not verify is refused.
  function FirstFault(env: Env, keys: Keys, ps: Proofs): Error
    requires !AllVerified(env, keys, ps)
  {
    if !Verified(env, keys, ps[0])
    then (if ps[0].dleq.Some? && KeyFor(keys, ps[0].amount).None? then KeysetNotFound else Crypto)
    else
      assert forall i :: 0 < i < |ps| ==> ps[i] == ps[1..][i - 1];
      FirstFault(env, keys, ps[1..])
  }

  // ---- Deterministic outputs ----

  // The keyset that a text names.
  function Named(env: Env, ks: KeysetText): KeysetId
  {
    if env.decodeId(ks).Some? then env.decodeId(ks).value else []
  }

  // The 32-bit addition of the source, in a build without overflow checks.
  function Index(n: nat): nat
  {
    if n <= U32_MAX then n else n % (U32_MAX + 1)
  }

  // Output i of a request is derived from index counter + i.
  function Outputs(env: Env, counter: nat, amounts: seq<u64>, ks: KeysetText): (r: seq<PendingOutput>)
    ensures |r| == |amounts|
  {
    seq(|amounts|, i requires 0 <= i < |amounts| =>
      var idx := Index(counter + i);
      PendingOutput(Derived(Named(env, ks), idx), env.blinder(Named(env, ks), idx), amounts[i]))
  }

  predicate Derivable(env: Env, from: nat, n: nat, ks: KeysetText)
  {
    n == 0 ||
    (env.decodeId(ks).Some? && forall i :: from <= i < from + n ==> env.derivable(Named(env, ks), Index(i)))
  }

  // Why derivation fails: the id does not decode, or an index gives no valid blinder.
  function NotDerivable(env: Env, ks: KeysetText): Error
  {
    if env.decodeId(ks).None? then Protocol else Crypto
  }

  function Advance(counter: nat, n: nat): nat
  {
    if counter + n <= U32_MAX then counter + n else U32_MAX
  }

  // ---- Minting and swapping ----

  // The common part: ask the mint to sign outputs, unblind, verify, and only then keep the proofs.
  function Credit(env: Env, s: State, amounts: seq<u64>, ks: KeysetText, keys: Keys,
                  reply: Result<seq<Signature>, Error>, save: Save): (State, Outcome<Proofs>)
  {
    if !Derivable(env, s.counter, |amounts|, ks) then (s, Refused(NotDerivable(env, ks)))
    else
      var pending := Outputs(env, s.counter, amounts, ks);
      var t := s.(counter := Advance(s.counter, |amounts|));
      match reply
      case Err(e) => (t, Refused(e))
      case Ok(sigs) =>
        if |sigs| != |pending| then (t, Refused(Protocol))
        else
          match UnblindAll(env.unblind, pending, sigs, keys)
          case Err(e) => (t, Refused(e))
          case Ok(ps) =>
            if !AllVerified(env, keys, ps) then (t, Refused(FirstFault(env, keys, ps)))
            else Finish(env, t.(proofs := t.proofs + ps), save, ps)
  }

  function Mint(env: Env, s: State, amount: u64, ks: KeysetText, keys: Keys, reply: Result<seq<Signature>, Error>,
                save: Save): (State, Outcome<nat>)
  {
    if Decomposed(amount) == [] then (s, Refused(InvalidAmount))
    else
      var (t, r) := Credit(env, s, Decomposed(amount), ks, keys, reply, save);
      (t, match r { case Done(ps) => Done(Balance(ps)) case Refused(e) => Refused(e) case SaveFailed => SaveFailed })
  }

  function Swap(env: Env, s: State, amounts: seq<u64>, ks: KeysetText, keys: Keys, reply: Result<seq<Signature>, Error>,
                save: Save): (State, Outcome<Proofs>)
  {
    if amounts == [] then (s, Refused(InvalidAmount)) else Credit(env, s, amounts, ks, keys, reply, save)
  }

  // ---- Spending ----

  // `retain(|p| !selected.contains(p))`
  function Without(ps: Proofs, selected: Proofs): (r: Proofs)
    ensures forall p :: p in r <==> p in ps && p !in selected
  {
    if ps == [] then []
    else if ps[0] in selected then Without(ps[1..], selected)
    else [ps[0]] + Without(ps[1..], selected)
  }

  function ProofsAt(ps: Proofs, positions: seq<nat>): (r: Proofs)
    requires forall i :: 0 <= i < |positions| ==> positions[i] < |ps|
    ensures |r| == |positions|
  {
    seq(|positions|, i requires 0 <= i < |positions| => ps[positions[i]])
  }

  function Select(ps: Proofs, amount: u64): Proofs
  {
    ProofsAt(ps, Largest(AmountsOf(ps), amount))
  }

  function Spend(env: Env, s: State, amount: u64, save: Save): (State, Outcome<Proofs>)
  {
    if amount == 0 then (s, Refused(InvalidAmount))
    else if Balance(s.proofs) < amount then (s, Refused(InsufficientInputs))
    else
      var selected := Select(s.proofs, amount);
      Finish(env, s.(proofs := Without(s.proofs, selected)), save, selected)
  }

  // `undo_spend` and `add_proofs`
  function Add(env: Env, s: State, ps: Proofs, save: Save): (State, Outcome<()>)
  {
    Finish(env, s.(proofs := s.proofs + ps), save, ())
  }

  function Remove(env: Env, s: State, ps: Proofs, save: Save): (State, Outcome<()>)
  {
    Finish(env, s.(proofs := Without(s.proofs, ps)), save, ())
  }

  // ---- Melting ----

  datatype MeltReply = MeltReply(paid: bool, change: Option<seq<Signature>>)
  datatype MeltOutcome = MeltOutcome(paid: bool, change: nat)

  // Change signatures are matched to blanks by position, with the denomination the mint chose.
  function Paired(blanks: seq<PendingOutput>, change: seq<Signature>): (pending: seq<PendingOutput>)
    ensures |pending| == if |blanks| < |change| then |blanks| else |change|
    ensures forall i :: 0 <= i < |pending| ==> pending[i] == blanks[i].(amount := change[i].amount)
  {
    var n := if |blanks| < |change| then |blanks| else |change|;
    seq(n, i requires 0 <= i < n => blanks[i].(amount := change[i].amount))
  }

  function ChangeProofs(env: Env, blanks: seq<PendingOutput>, change: seq<Signature>, keys: Keys): Result<Proofs, Error>
  {
    var pending := Paired(blanks, change);
    UnblindAll(env.unblind, pending, change[..|pending|], keys)
  }

  // The amount a melt has to cover, if it can be asked for at all.
  predicate MeltAskable(s: State, invoice: u64, fee: u64)
  {
    0 < invoice + fee <= U64_MAX && Balance(s.proofs) >= invoice + fee
  }

  function Melt(env: Env, s: State, invoice: u64, fee: u64, ks: KeysetText, keys: Keys, reply: Result<MeltReply, Error>,
                save: Save): (State, Outcome<MeltOutcome>)
  {
    if invoice + fee > U64_MAX || invoice + fee == 0 then (s, Refused(InvalidAmount))
    else if Balance(s.proofs) < invoice + fee then (s, Refused(InsufficientInputs))
    else
      var blankAmounts := Decomposed(fee);
      if !Derivable(env, s.counter, |blankAmounts|, ks) then (s, Refused(NotDerivable(env, ks)))
      else
        var blanks := Outputs(env, s.counter, blankAmounts, ks);
        var t := s.(counter := Advance(s.counter, |blankAmounts|));
        match reply
        case Err(e) => (t, Refused(e))
        case Ok(answer) =>
          if !answer.paid then Finish(env, t, save, MeltOutcome(false, 0))
          else MeltPaid(env, t, Select(s.proofs, invoice + fee), blanks, answer.change, keys, save)
  }

  function MeltPaid(env: Env, t: State, selected: Proofs, blanks: seq<PendingOutput>, change: Option<seq<Signature>>,
                    keys: Keys, save: Save): (State, Outcome<MeltOutcome>)
  {
    match (if change.Some? then ChangeProofs(env, blanks, change.value, keys) else Ok([]))
    case Err(e) => (t, Refused(e))
    case Ok(ps) =>
      if !AllVerified(env, keys, ps) then (t, Refused(FirstFault(env, keys, ps)))
      else Finish(env, t.(proofs := Without(t.proofs, selected) + ps), save, MeltOutcome(true, Balance(ps)))
  }

  // ---- Restoring ----

  // A restored output: the blinded message asked about, named by the secret under it, and its signature.
  datatype Restored = Restored(y: Secret, signature: Signature)

  predicate Scanned(ks: KeysetId, end: nat, y: Secret)
  {
    y.Derived? && y.keyset == ks && y.idx < end
  }

  function SecretsOf(ps: Proofs): set<Secret>
  {
    set i | 0 <= i < |ps| :: ps[i].secret
  }

  // The loop over the mint's answer: outputs not asked for, and secrets already known, are skipped.
  function Scan(env: Env, ks: KeysetId, end: nat, keys: Keys, known: set<Secret>,
                entries: seq<Restored>): Result<Proofs, Error>
    decreases |entries|
  {
    if entries == [] then Ok([])
    else
      var e := entries[0];
      if !Scanned(ks, end, e.y) || e.y in known then Scan(env, ks, end, keys, known, entries[1..])
      else
        match UnblindOne(env.unblind, PendingOutput(e.y, env.blinder(ks, e.y.idx), e.signature.amount),
          e.signature.amount, e.signature, keys)
        case Err(x) => Err(x)
        case Ok(p) =>
          match Scan(env, ks, end, keys, known + {e.y}, entries[1..])
          case Err(x) => Err(x)
          case Ok(ps) => Ok([p] + ps)
  }

  // One past the highest derived index, or the counter if that is higher.
  function Past(counter: nat, ps: Proofs): (c: nat)
    ensures c >= counter
    ensures forall i :: 0 <= i < |ps| && ps[i].secret.Derived? ==> ps[i].secret.idx < c
  {
    if ps == [] then counter
    else
      var last := ps[|ps| - 1].secret;
      var c := Past(counter, ps[..|ps| - 1]);
      assert forall i :: 0 <= i < |ps| - 1 ==> ps[i] == ps[..|ps| - 1][i];
      if last.Derived? && last.idx + 1 > c then last.idx + 1 else c
  }

  function Restore(env: Env, s: State, ks: KeysetText, keys: Keys, reply: Result<seq<Restored>, Error>,
                   save: Save): (State, Outcome<nat>)
  {
    var end := Advance(s.counter, RESTORE_HEADROOM);
    if !Derivable(env, 0, end, ks) then (s, Refused(NotDerivable(env, ks)))
    else
      match reply
      case Err(e) => (s, Refused(e))
      case Ok(entries) =>
        match Scan(env, Named(env, ks), end, keys, SecretsOf(s.proofs), entries)
        case Err(e) => (s, Refused(e))
        case Ok(ps) =>
          if !AllVerified(env, keys, ps) then (s, Refused(FirstFault(env, keys, ps)))
          else
            var t := s.(proofs := s.proofs + ps, counter := Past(s.counter, ps));
            if ps == [] then (t, Done(0)) else Finish(env, t, save, |ps|)
  }
}
