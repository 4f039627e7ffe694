/**
 The blind-signature algebra (cashu-core-lite/src/crypto.rs, `blind_message`, `sign_message`,
 `unblind_signature`, `verify_signature_with_privkey`), over any group of prime order.

 Points other than the identity are the source's `PublicKey`s; non-zero scalars below the order are
 its `SecretKey`s; hashing a message to the curve is a parameter.
 */
module BlindSignatures {
  import opened Results
  import opened Amounts
  import opened Ecash

  ghost predicate Prime(q: nat)
  {
    q > 1 && forall d :: 1 < d < q ==> q % d != 0
  }

  datatype Curve<!P(!new,==), !M(!new)> = Curve(
    add: (P, P) -> P, neg: P -> P, zero: P, gen: P, q: nat, hash: M -> Option<P>) {
    // n times p
    function Mul(n: nat, p: P): P
    {
      if n == 0 then zero else add(p, Mul(n - 1, p))
    }

    ghost predicate Commutative() { forall a, b :: add(a, b) == add(b, a) }
    ghost predicate Associative() { forall a, b, c :: add(add(a, b), c) == add(a, add(b, c)) }
    ghost predicate Identity() { forall a :: add(a, zero) == a }
    ghost predicate Inverse() { forall a :: add(a, neg(a)) == zero }
    ghost predicate OfOrder() { forall a :: Mul(q, a) == zero }

    // A commutative group whose order is a prime q; hashing never gives the identity.
    ghost predicate PrimeOrder()
    {
      && Commutative() && Associative() && Identity() && Inverse()
      && Prime(q) && OfOrder()
      && gen != zero
      && forall x :: hash(x).Some? ==> hash(x).value != zero
    }

    predicate IsScalar(k: nat) { 0 < k < q }

    // ---- The operations of the source ----

    function PublicKeyOf(k: nat): P { Mul(k, gen) }

    // B' = Y + rG
    function Blind(secret: M, r: nat): Option<P>
    {
      match hash(secret)
      case None => None
      case Some(y) =>
        var b := add(y, Mul(r, gen));
        if b == zero then None else Some(b)
    }

    // C' = kB'; the source expects a point other than the identity here.
    function Sign(k: nat, b: P): P { Mul(k, b) }

    // C = C' - rK
    function Unblind(c: P, r: nat, key: P): Option<P>
    {
      var u := add(c, neg(Mul(r, key)));
      if u == zero then None else Some(u)
    }

    // Does C == k hash(x)?
    function VerifyWithPrivkey(secret: M, c: P, k: nat): Option<bool>
    {
      match hash(secret)
      case None => None
      case Some(y) => Some(Mul(k, y) == c)
    }

    // ---- Scalar multiplication ----

    lemma AddZero(a: P)
      requires PrimeOrder()
      ensures add(a, zero) == a && add(zero, a) == a
    {
    }

    lemma {:induction false} MulSum(m: nat, n: nat, p: P)
      requires PrimeOrder()
      ensures Mul(m + n, p) == add(Mul(m, p), Mul(n, p))
    {
      hide Prime;
      if m == 0 {
        assert add(zero, Mul(n, p)) == add(Mul(n, p), zero);
      } else {
        MulSum(m - 1, n, p);
        assert Mul(m + n, p) == add(p, Mul(m - 1 + n, p));
        assert add(add(p, Mul(m - 1, p)), Mul(n, p)) == add(p, add(Mul(m - 1, p), Mul(n, p)));
      }
    }

    lemma Interchange(a: P, b: P, c: P, d: P)
      requires PrimeOrder()
      ensures add(add(a, b), add(c, d)) == add(add(a, c), add(b, d))
    {
      hide Mul, Prime;
      calc {
        add(add(a, b), add(c, d));
        add(a, add(b, add(c, d)));
        { assert add(add(b, c), d) == add(b, add(c, d)); }
        add(a, add(add(b, c), d));
        { assert add(b, c) == add(c, b); }
        add(a, add(add(c, b), d));
        { assert add(add(c, b), d) == add(c, add(b, d)); }
        add(a, add(c, add(b, d)));
        add(add(a, c), add(b, d));
      }
    }

    lemma {:induction false} MulDistributes(n: nat, a: P, b: P)
      requires PrimeOrder()
      ensures Mul(n, add(a, b)) == add(Mul(n, a), Mul(n, b))
    {
      if n == 0 {
        assert add(zero, zero) == zero;
      } else {
        MulDistributes(n - 1, a, b);
        Interchange(a, b, Mul(n - 1, a), Mul(n - 1, b));
      }
    }

    lemma {:induction false} MulZero(n: nat)
      requires PrimeOrder()
      ensures Mul(n, zero) == zero
    {
      if n == 0 {
      } else {
        MulZero(n - 1);
      }
    }

    lemma {:induction false} MulCommutes(m: nat, n: nat, p: P)
      requires PrimeOrder()
      ensures Mul(m, Mul(n, p)) == Mul(n, Mul(m, p))
    {
      hide PrimeOrder;
      if m == 0 {
        MulZero(n);
      } else {
        MulCommutes(m - 1, n, p);
        MulDistributes(n, p, Mul(m - 1, p));
      }
    }

    lemma {:induction false} MulMultiple(c: nat, k: nat, p: P)
      requires PrimeOrder() && Mul(k, p) == zero
      ensures Mul(c * k, p) == zero
    {
      hide PrimeOrder;
      if c == 0 {
        assert c * k == 0;
      } else {
        MulMultiple(c - 1, k, p);
        assert c * k == (c - 1) * k + k;
        MulSum((c - 1) * k, k, p);
        AddZero(zero);
      }
    }

    lemma OrderKills(p: P)
      requires PrimeOrder()
      ensures Mul(q, p) == zero
    {
    }

    lemma Divided(k: nat) returns (c: nat, r: nat)
      requires PrimeOrder() && 1 < k < q
      ensures q == c * k + r && 0 < r < k
    {
      c, r := q / k, q % k;
    }

    // In a group of prime order only the identity is killed by a non-zero scalar: Euclid's algorithm on (q, k).
    lemma {:induction false} OnlyZeroVanishes(k: nat, p: P)
      requires PrimeOrder() && IsScalar(k) && Mul(k, p) == zero
      ensures p == zero
      decreases k
    {
      hide PrimeOrder;
      AddZero(p);
      if k == 1 {
      } else {
        var c, r := Divided(k);
        OrderKills(p);
        MulMultiple(c, k, p);
        MulSum(c * k, r, p);
        AddZero(Mul(r, p));
        OnlyZeroVanishes(r, p);
      }
    }

    /** Signing never meets the identity, so the source's `expect` is never reached. */
    lemma SignNeverFails(k: nat, b: P)
      requires PrimeOrder() && IsScalar(k) && b != zero
      ensures Sign(k, b) != zero
    {
      if Sign(k, b) == zero {
        OnlyZeroVanishes(k, b);
      }
    }

    lemma CancelRight(a: P, b: P)
      requires PrimeOrder()
      ensures add(add(a, b), neg(b)) == a
    {
      hide Mul, Prime;
      assert add(add(a, b), neg(b)) == add(a, add(b, neg(b)));
    }

    lemma HashIsPoint(secret: M)
      requires PrimeOrder()
      ensures hash(secret).Some? ==> hash(secret).value != zero
    {
    }

    /** Blind, sign, unblind gives k times the hashed secret: whenever blinding succeeds, so does
        unblinding, and the private-key verifier accepts exactly that one point. */
    lemma BlindSignUnblind(secret: M, r: nat, k: nat)
      requires PrimeOrder() && IsScalar(r) && IsScalar(k) && Blind(secret, r).Some?
      ensures hash(secret).Some?
      ensures var c := Mul(k, hash(secret).value);
              && Unblind(Sign(k, Blind(secret, r).value), r, PublicKeyOf(k)) == Some(c)
              && forall x :: VerifyWithPrivkey(secret, x, k) == Some(x == c)
    {
      hide PrimeOrder, Mul;
      var y := hash(secret).value;
      HashIsPoint(secret);
      MulDistributes(k, y, Mul(r, gen));
      MulCommutes(k, r, gen);
      CancelRight(Mul(k, y), Mul(r, Mul(k, gen)));
      SignNeverFails(k, y);
    }
  }

  // ---- A whole batch of outputs ----

  // Each signature is the mint's, under the key of that position's denomination.
  ghost predicate HonestlySigned<P(!new)>(g: Curve<P, Secret>, pending: seq<PendingOutput>,
                                          sigs: seq<BlindSignature<P>>, k: u64 -> nat)
  {
    && |pending| == |sigs|
    && forall i :: 0 <= i < |pending| ==>
         && g.IsScalar(pending[i].blinder) && g.IsScalar(k(pending[i].amount))
         && g.Blind(pending[i].secret, pending[i].blinder).Some?
         && sigs[i].c == g.Sign(k(pending[i].amount), g.Blind(pending[i].secret, pending[i].blinder).value)
  }

  /** The wallet's unblinding keeps the algebra position by position: with honest signatures and a key for
      every denomination asked for, every output becomes a proof with its own secret and amount that verifies
      under that denomination's private key. */
  lemma {:induction false} UnblindedBatchVerifies<P(!new)>(g: Curve<P, Secret>, pending: seq<PendingOutput>,
                                                           sigs: seq<BlindSignature<P>>, keys: seq<KeyPair<P>>,
                                                           k: u64 -> nat)
    requires g.PrimeOrder() && HonestlySigned(g, pending, sigs, k)
    requires forall i :: 0 <= i < |pending| ==>
             KeyFor(keys, pending[i].amount) == Some(g.PublicKeyOf(k(pending[i].amount)))
    ensures var r := UnblindAll(g.Unblind, pending, sigs, keys);
            && r.Ok?
            && forall i :: 0 <= i < |pending| ==>
                 && r.value[i].secret == pending[i].secret && r.value[i].amount == pending[i].amount
                 && g.VerifyWithPrivkey(pending[i].secret, r.value[i].c, k(pending[i].amount)) == Some(true)
  {
    hide Curve.PrimeOrder, Curve.Mul, Curve.Blind, Curve.Sign, Curve.VerifyWithPrivkey;
    if pending == [] {
    } else {
      g.BlindSignUnblind(pending[0].secret, pending[0].blinder, k(pending[0].amount));
      UnblindedBatchVerifies(g, pending[1..], sigs[1..], keys, k);
    }
  }
}
