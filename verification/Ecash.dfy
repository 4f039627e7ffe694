/**
 Outputs, signatures and proofs as the wallet handles them, and the unblinding loop
 (cashu-core-lite/src/wallet.rs, `unblind_to_proofs`). Points are an arbitrary type; scalars are
 numbers; a secret is either derived from the wallet's seed (NUT-13) or foreign.
 */
module Ecash {
  import opened Results
  import opened Amounts
  import opened Octets

  // A keyset id as it is written, and the bytes it stands for: two spellings of one id derive the same secrets.
  type KeysetText = string
  type KeysetId = seq<octet>

  // NUT-13 derivation is taken to be injective, so a derived secret is named by its keyset and index.
  datatype Secret = Derived(keyset: KeysetId, idx: nat) | Foreign(text: string)

  datatype SigDleq = SigDleq(e: nat, s: nat)
  datatype ProofDleq = ProofDleq(e: nat, s: nat, r: nat)

  datatype PendingOutput = PendingOutput(secret: Secret, blinder: nat, amount: u64)
  datatype BlindSignature<P> = BlindSignature(amount: u64, id: KeysetText, c: P, dleq: Option<SigDleq>)
  datatype Proof<P> = Proof(amount: u64, id: KeysetText, secret: Secret, c: P, dleq: Option<ProofDleq>)

  datatype KeyPair<P> = KeyPair(amount: u64, pubkey: P)

  datatype Error =
    | InvalidAmount | InsufficientInputs | KeysetNotFound | Protocol | Crypto | Storage | Transport

  // Entry i is the first key listed for a denomination.
  ghost predicate FirstKey<P>(keys: seq<KeyPair<P>>, amount: u64, i: int)
  {
    0 <= i < |keys| && keys[i].amount == amount && forall h :: 0 <= h < i ==> keys[h].amount != amount
  }

  // The first key listed for a denomination.
  function KeyFor<P>(keys: seq<KeyPair<P>>, amount: u64): (r: Option<P>)
    ensures r.Some? ==> exists i :: FirstKey(keys, amount, i) && keys[i].pubkey == r.value
    ensures r.None? ==> forall i :: 0 <= i < |keys| ==> keys[i].amount != amount
  {
    if keys == [] then None
    else if keys[0].amount == amount then
      assert FirstKey(keys, amount, 0);
      Some(keys[0].pubkey)
    else
      var r := KeyFor(keys[1..], amount);
      assert forall i :: FirstKey(keys[1..], amount, i) ==> FirstKey(keys, amount, i + 1);
      assert forall i :: FirstKey(keys[1..], amount, i) ==> keys[i + 1] == keys[1..][i];
      assert r.None? ==> forall i :: 0 < i < |keys| ==> keys[i] == keys[1..][i - 1];
      r
  }

  lemma FirstKeyIsUnique<P>(keys: seq<KeyPair<P>>, amount: u64, i: int)
    requires FirstKey(keys, amount, i)
    ensures KeyFor(keys, amount) == Some(keys[i].pubkey)
  {
    var r := KeyFor(keys, amount);
    assert keys[i].amount == amount;
    var j :| FirstKey(keys, amount, j) && keys[j].pubkey == r.value;
    assert i == j;
  }

  // `C = C' - rK`, which fails on the point at infinity.
  type Unblind<!P> = (P, nat, P) -> Option<P>

  // The proof for one output and the signature on it.
  function UnblindOne<P>(unblind: Unblind<P>, p: PendingOutput, amount: u64, sig: BlindSignature<P>,
                         keys: seq<KeyPair<P>>): Result<Proof<P>, Error>
  {
    match KeyFor(keys, amount)
    case None => Err(KeysetNotFound)
    case Some(k) =>
      match unblind(sig.c, p.blinder, k)
      case None => Err(Crypto)
      case Some(c) =>
        var dleq := if sig.dleq.Some? then Some(ProofDleq(sig.dleq.value.e, sig.dleq.value.s, p.blinder)) else None;
        Ok(Proof(amount, sig.id, p.secret, c, dleq))
  }

  // Position by position; the first failure decides.
  function UnblindAll<P>(unblind: Unblind<P>, pending: seq<PendingOutput>, sigs: seq<BlindSignature<P>>,
                         keys: seq<KeyPair<P>>): (r: Result<seq<Proof<P>>, Error>)
    requires |pending| == |sigs|
    ensures r.Ok? ==> |r.value| == |pending|
    ensures r.Ok? ==> forall i :: 0 <= i < |pending| ==>
                        UnblindOne(unblind, pending[i], pending[i].amount, sigs[i], keys) == Ok(r.value[i])
  {
    if pending == [] then Ok([])
    else
      match UnblindOne(unblind, pending[0], pending[0].amount, sigs[0], keys)
      case Err(e) => Err(e)
      case Ok(p) =>
        match UnblindAll(unblind, pending[1..], sigs[1..], keys)
        case Err(e) => Err(e)
        case Ok(ps) => Ok([p] + ps)
  }

  /** The loop of `unblind_to_proofs`, which first checks that there is one signature per output. */
  method UnblindToProofs<P>(unblind: Unblind<P>, pending: seq<PendingOutput>, sigs: seq<BlindSignature<P>>,
                            keys: seq<KeyPair<P>>)
    returns (r: Result<seq<Proof<P>>, Error>)
    ensures r == if |pending| != |sigs| then Err(Protocol) else UnblindAll(unblind, pending, sigs, keys)
  {
    if |pending| != |sigs| {
      return Err(Protocol);
    }
    var proofs: seq<Proof<P>> := [];
    var i := 0;
    hide UnblindAll, UnblindOne, Prepended;
    UnblindFromStart(unblind, pending, sigs, keys);
    while i < |pending|
      invariant 0 <= i <= |pending|
      invariant Prepended(proofs, UnblindAll(unblind, pending[i..], sigs[i..], keys)) ==
                UnblindAll(unblind, pending, sigs, keys)
    {
      UnblindFrom(unblind, pending, sigs, keys, i, proofs);
      var one := UnblindOne(unblind, pending[i], pending[i].amount, sigs[i], keys);
      if one.Err? {
        return Err(one.error);
      }
      proofs := proofs + [one.value];
      i := i + 1;
    }
    UnblindFrom(unblind, pending, sigs, keys, i, proofs);
    r := Ok(proofs);
  }

  function Prepended<P>(front: seq<Proof<P>>, r: Result<seq<Proof<P>>, Error>): Result<seq<Proof<P>>, Error>
  {
    match r
    case Err(e) => Err(e)
    case Ok(ps) => Ok(front + ps)
  }

  // One turn of the loop over the positions from i on, with `front` collected so far.
  lemma {:induction false} UnblindFrom<P>(unblind: Unblind<P>, pending: seq<PendingOutput>,
                                          sigs: seq<BlindSignature<P>>, keys: seq<KeyPair<P>>, i: nat,
                                          front: seq<Proof<P>>)
    requires |pending| == |sigs| && i <= |sigs|
    ensures Prepended(front, UnblindAll(unblind, pending[i..], sigs[i..], keys)) ==
            if i == |sigs| then Ok(front)
            else
              match UnblindOne(unblind, pending[i], pending[i].amount, sigs[i], keys)
              case Err(e) => Err(e)
              case Ok(p) => Prepended(front + [p], UnblindAll(unblind, pending[i + 1..], sigs[i + 1..], keys))
  {
    if i == |sigs| {
      assert front + [] == front;
    } else {
      assert pending[i..][1..] == pending[i + 1..] && sigs[i..][1..] == sigs[i + 1..];
      var one := UnblindOne(unblind, pending[i], pending[i].amount, sigs[i], keys);
      if one.Ok? {
        PrependOne(front, one.value, UnblindAll(unblind, pending[i + 1..], sigs[i + 1..], keys));
      }
    }
  }

  lemma UnblindFromStart<P>(unblind: Unblind<P>, pending: seq<PendingOutput>, sigs: seq<BlindSignature<P>>,
                            keys: seq<KeyPair<P>>)
    requires |pending| == |sigs|
    ensures Prepended([], UnblindAll(unblind, pending[0..], sigs[0..], keys)) ==
            UnblindAll(unblind, pending, sigs, keys)
  {
    var all := UnblindAll(unblind, pending, sigs, keys);
    assert pending[0..] == pending && sigs[0..] == sigs;
    assert all.Ok? ==> [] + all.value == all.value;
  }

  lemma PrependOne<P>(front: seq<Proof<P>>, p: Proof<P>, r: Result<seq<Proof<P>>, Error>)
    ensures Prepended(front + [p], r) == Prepended(front, Prepended([p], r))
  {
    if r.Ok? {
      assert (front + [p]) + r.value == front + ([p] + r.value);
    }
  }

  // The amounts of a list of proofs.
  function AmountsOf<P>(ps: seq<Proof<P>>): (a: seq<u64>)
    ensures |a| == |ps|
  {
    seq(|ps|, i requires 0 <= i < |ps| => ps[i].amount)
  }

  function Balance<P>(ps: seq<Proof<P>>): nat { Sum(AmountsOf(ps)) }
}
